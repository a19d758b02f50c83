/** The activity database: the Participant and Activity records, the two
    roster invariants every committed state keeps, and the nine activities
    that seeding puts into an empty database. */
module Db {

  /** One enrolment row. The `activity_id` foreign key is modelled by the
      owning activity's name, which is the key of the store. The optional
      `name` and `grade` columns are not modelled (no operation reads them). */
  datatype Participant = Participant(email: string, activityName: string)

  /** One activity row together with its roster, in roster order. */
  datatype Activity = Activity(
    name: string,
    description: string,
    schedule: string,
    maxParticipants: int,
    participants: seq<Participant>)

  /** The whole database: every activity, keyed by its name. */
  type Store = map<string, Activity>

  /** The e-mail addresses of a roster, in roster order. */
  function Emails(ps: seq<Participant>): (es: seq<string>)
    ensures |es| == |ps|
    ensures forall i :: 0 <= i < |ps| ==> es[i] == ps[i].email
  {
    if ps == [] then [] else [ps[0].email] + Emails(ps[1..])
  }

  /** No two participants of one roster share an e-mail (exact match). */
  predicate DistinctEmails(ps: seq<Participant>)
  {
    forall i, j :: 0 <= i < j < |ps| ==> ps[i].email != ps[j].email
  }

  /** The roster does not exceed the activity's capacity. */
  predicate WithinCapacity(a: Activity)
  {
    |a.participants| <= a.maxParticipants
  }

  /** Every participant of the roster points back to the activity `name`. */
  predicate OwnedBy(ps: seq<Participant>, name: string)
  {
    forall p :: p in ps ==> p.activityName == name
  }

  predicate ValidActivity(name: string, a: Activity)
  {
    && a.name == name
    && WithinCapacity(a)
    && DistinctEmails(a.participants)
    && OwnedBy(a.participants, name)
  }

  /** The invariant of every committed state of the database. */
  predicate ValidStore(s: Store)
  {
    forall n :: n in s ==> ValidActivity(n, s[n])
  }

  /** A participant row carries a single activity reference, so in a valid
      store it is on the roster of at most one activity. */
  lemma ParticipantInOneActivity(s: Store, n1: string, n2: string, p: Participant)
    requires ValidStore(s)
    requires n1 in s && n2 in s
    requires p in s[n1].participants && p in s[n2].participants
    ensures n1 == n2
  {
  }

  /** The names of the seeded activities, in insertion order. */
  function DefaultNames(): seq<string>
  {
    ["Chess Club", "Programming Class", "Gym Class", "Soccer Team", "Basketball Team",
     "Art Club", "Drama Club", "Math Club", "Debate Team"]
  }

  /** The description of the i-th seeded activity. */
  function DefaultDescription(i: nat): string
  {
    match i
    case 0 => "Learn strategies and compete in chess tournaments"
    case 1 => "Learn programming fundamentals and build software projects"
    case 2 => "Physical education and sports activities"
    case 3 => "Join the school soccer team and compete in matches"
    case 4 => "Practice and play basketball with the school team"
    case 5 => "Explore your creativity through painting and drawing"
    case 6 => "Act, direct, and produce plays and performances"
    case 7 => "Solve challenging problems and participate in math competitions"
    case _ => "Develop public speaking and argumentation skills"
  }

  /** The schedule of the i-th seeded activity. */
  function DefaultSchedule(i: nat): string
  {
    match i
    case 0 => "Fridays, 3:30 PM - 5:00 PM"
    case 1 => "Tuesdays and Thursdays, 3:30 PM - 4:30 PM"
    case 2 => "Mondays, Wednesdays, Fridays, 2:00 PM - 3:00 PM"
    case 3 => "Tuesdays and Thursdays, 4:00 PM - 5:30 PM"
    case 4 => "Wednesdays and Fridays, 3:30 PM - 5:00 PM"
    case 5 => "Thursdays, 3:30 PM - 5:00 PM"
    case 6 => "Mondays and Wednesdays, 4:00 PM - 5:30 PM"
    case 7 => "Tuesdays, 3:30 PM - 4:30 PM"
    case _ => "Fridays, 4:00 PM - 5:30 PM"
  }

  /** The capacities of the seeded activities, in insertion order. */
  function DefaultCapacities(): seq<int>
  {
    [12, 20, 30, 22, 15, 15, 20, 10, 12]
  }

  /** The activities inserted by seeding, in insertion order: each starts with
      an empty roster. */
  function Defaults(): seq<Activity>
  {
    seq(9, i requires 0 <= i < 9 =>
      Activity(DefaultNames()[i], DefaultDescription(i), DefaultSchedule(i), DefaultCapacities()[i], []))
  }

  predicate DistinctNames(acts: seq<Activity>)
  {
    forall i, j :: 0 <= i < j < |acts| ==> acts[i].name != acts[j].name
  }

  /** The store holding the rows `acts` (all inserted at once). A map cannot
      hold two rows of one name, whereas the table could (its name column is
      only indexed); seeding never inserts two such rows (`DefaultNamesDistinct`). */
  function StoreOf(acts: seq<Activity>): (s: Store)
    ensures forall i :: 0 <= i < |acts| ==> acts[i].name in s
    ensures forall n :: n in s ==> s[n].name == n && s[n] in acts
  {
    if acts == [] then map[]
    else
      var last := acts[|acts| - 1];
      StoreOf(acts[..|acts| - 1])[last.name := last]
  }

  /** Without repeated names, every row is kept, under its own name. */
  lemma {:induction false} StoreOfDistinct(acts: seq<Activity>)
    requires DistinctNames(acts)
    ensures |StoreOf(acts)| == |acts|
    ensures forall i :: 0 <= i < |acts| ==> StoreOf(acts)[acts[i].name] == acts[i]
  {
    if acts != [] {
      var init, last := acts[..|acts| - 1], acts[|acts| - 1];
      assert DistinctNames(init);
      StoreOfDistinct(init);
      var before := StoreOf(init);
      assert last.name !in before by {
        forall n | n in before ensures n != last.name {
          assert before[n] in init;
        }
      }
      assert StoreOf(acts) == before[last.name := last];
      assert StoreOf(acts).Keys == before.Keys + {last.name};
      forall i | 0 <= i < |acts| ensures StoreOf(acts)[acts[i].name] == acts[i] {
        if i < |init| { assert init[i] == acts[i]; }
      }
    }
  }

  /** The database right after seeding an empty one. */
  function DefaultStore(): Store
  {
    StoreOf(Defaults())
  }

  /** Seeding: an empty database receives the default activities; a database
      holding at least one activity is returned as it is. */
  function Seed(s: Store): (t: Store)
    ensures t != map[]
    ensures s != map[] ==> t == s
  {
    if s == map[] then DefaultStoreNonEmpty(); DefaultStore() else s
  }

  /** The seeded names differ already in their first two characters. */
  lemma DefaultNamesDistinct()
    ensures forall i, j :: 0 <= i < j < 9 ==> DefaultNames()[i] != DefaultNames()[j]
  {
    var d := DefaultNames();
    assert d[0][..2] == "Ch" && d[1][..2] == "Pr" && d[2][..2] == "Gy";
    assert d[3][..2] == "So" && d[4][..2] == "Ba" && d[5][..2] == "Ar";
    assert d[6][..2] == "Dr" && d[7][..2] == "Ma" && d[8][..2] == "De";
  }

  /** The shape of the seed rows: the nine listed names in order, each with
      an empty roster and a positive capacity. */
  predicate SeedShaped(acts: seq<Activity>)
  {
    && |acts| == 9
    && forall i :: 0 <= i < 9 ==>
         acts[i].name == DefaultNames()[i] && acts[i].participants == [] && acts[i].maxParticipants > 0
  }

  /** The seed rows have the seed shape. */
  lemma DefaultsShape()
    ensures SeedShaped(Defaults())
  {
  }

  predicate Named(acts: seq<Activity>, names: seq<string>)
  {
    |acts| == |names| && forall i :: 0 <= i < |acts| ==> acts[i].name == names[i]
  }

  /** The store of some rows is keyed by exactly the names of those rows. */
  lemma {:induction false} NamedStore(acts: seq<Activity>, names: seq<string>)
    requires Named(acts, names)
    ensures forall n :: n in StoreOf(acts) <==> n in names
  {
    var s := StoreOf(acts);
    forall n | n in s ensures n in names {
      var k :| 0 <= k < |acts| && acts[k] == s[n];
      assert names[k] == n;
    }
  }

  /** Rows of the seed shape are stored without one shadowing another: the
      database holds exactly the nine listed names, each with its own row. */
  lemma ShapedStore(acts: seq<Activity>)
    requires SeedShaped(acts)
    ensures DistinctNames(acts)
    ensures |StoreOf(acts)| == 9
    ensures forall n :: n in StoreOf(acts) <==> n in DefaultNames()
    ensures forall i :: 0 <= i < 9 ==> acts[i].name in StoreOf(acts) && StoreOf(acts)[acts[i].name] == acts[i]
    ensures forall n :: n in StoreOf(acts) ==>
              StoreOf(acts)[n].participants == [] && StoreOf(acts)[n].maxParticipants > 0
  {
    DefaultNamesDistinct();
    StoreOfDistinct(acts);
    NamedStore(acts, DefaultNames());
  }

  /** Seeding an empty database gives exactly the nine listed activities
      (Chess Club, Programming Class, Gym Class, Soccer Team, Basketball Team,
      Art Club, Drama Club, Math Club, Debate Team), each with an empty roster
      and a positive capacity. The nine names are pairwise distinct, which the
      database itself does not enforce (the name column is indexed, not
      unique), so no seeded row shadows another. */
  lemma DefaultStoreContents()
    ensures DistinctNames(Defaults())
    ensures |DefaultStore()| == 9
    ensures forall n :: n in DefaultStore() <==> n in DefaultNames()
    ensures forall i :: 0 <= i < 9 ==>
              DefaultNames()[i] in DefaultStore() && DefaultStore()[DefaultNames()[i]] == Defaults()[i]
    ensures forall n :: n in DefaultStore() ==>
              DefaultStore()[n].participants == [] && DefaultStore()[n].maxParticipants > 0
  {
    DefaultsShape();
    ShapedStore(Defaults());
  }

  /** The seeded database satisfies both roster invariants. */
  lemma DefaultStoreValid()
    ensures ValidStore(DefaultStore())
  {
    DefaultStoreContents();
  }

  lemma DefaultStoreNonEmpty()
    ensures DefaultStore() != map[]
  {
    DefaultStoreContents();
    assert DefaultNames()[0] in DefaultStore();
  }

  /** Seeding twice gives the same database as seeding once. */
  lemma SeedIdempotent(s: Store)
    ensures Seed(Seed(s)) == Seed(s)
  {
  }

  /** Seeding never breaks the invariants of a valid database. */
  lemma SeedValid(s: Store)
    requires ValidStore(s)
    ensures ValidStore(Seed(s))
  {
    DefaultStoreValid();
  }
}
