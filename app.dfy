/** The request handlers of the activities service: listing the activities,
    signing a student up for one and unregistering a student from one. Each
    request is one atomic step on the database; an HTTP error becomes an
    `Outcome` other than `Ok`. */
module App {
  import opened Db

  datatype Option<T> = None | Some(value: T)

  /** What a request answers. `NotFound` stands for the 404 reply, the other
      errors for the 400 replies; `Ok` carries the confirmation message. */
  datatype Outcome =
    | Ok(message: string)
    | NotFound         // "Activity not found"
    | AlreadySignedUp  // "Student is already signed up"
    | Full             // "Activity is full"
    | NotSignedUp      // "Student is not signed up for this activity"

  /** The answer of one request together with the database after it. */
  datatype Step = Step(outcome: Outcome, store: Store)

  /** One entry of the activity listing. */
  datatype ActivityView = ActivityView(
    description: string,
    schedule: string,
    maxParticipants: int,
    participants: seq<string>)

  // ---------------------------------------------------------------------
  // Listing
  // ---------------------------------------------------------------------

  function ViewOf(a: Activity): ActivityView
  {
    ActivityView(a.description, a.schedule, a.maxParticipants, Emails(a.participants))
  }

  /** The listing answered by GET /activities: one entry per activity. An
      entry is keyed by the store key, which in a valid store is the
      activity's own name, the key the handler uses (`ListingKeyedByName`). */
  function Listing(s: Store): (l: map<string, ActivityView>)
    ensures l.Keys == s.Keys
  {
    map n | n in s :: ViewOf(s[n])
  }

  /** The listing has exactly one entry per activity; each entry copies the
      activity's description, schedule and capacity and lists the e-mails of
      its roster in roster order. */
  lemma ListingMatchesStore(s: Store)
    ensures Listing(s).Keys == s.Keys
    ensures forall n :: n in s ==>
              && Listing(s)[n].description == s[n].description
              && Listing(s)[n].schedule == s[n].schedule
              && Listing(s)[n].maxParticipants == s[n].maxParticipants
              && |Listing(s)[n].participants| == |s[n].participants|
              && forall i :: 0 <= i < |s[n].participants| ==>
                   Listing(s)[n].participants[i] == s[n].participants[i].email
  {
  }

  /** In a valid store every activity is listed under its own name, carrying
      its own view. */
  lemma ListingKeyedByName(s: Store)
    requires ValidStore(s)
    ensures forall n :: n in s ==> s[n].name in Listing(s) && Listing(s)[s[n].name] == ViewOf(s[n])
  {
  }

  // ---------------------------------------------------------------------
  // Signing up
  // ---------------------------------------------------------------------

  /** The roster of `a` with a new participant row for `email` at its end. */
  function Enroll(a: Activity, email: string): Activity
  {
    a.(participants := a.participants + [Participant(email, a.name)])
  }

  /** POST /activities/{name}/signup?email=...: the activity must exist, the
      e-mail must not be on its roster yet, and the roster must not be full;
      the checks are made in this order. */
  function Signup(s: Store, name: string, email: string): (r: Step)
    ensures r.store.Keys == s.Keys
    ensures forall n :: n in s && n != name ==> r.store[n] == s[n]
    ensures r.outcome.Ok? <==> r.store != s
  {
    if name !in s then Step(NotFound, s)
    else
      var a := s[name];
      if email in Emails(a.participants) then Step(AlreadySignedUp, s)
      else if |a.participants| >= a.maxParticipants then Step(Full, s)
      else Step(Ok("Signed up " + email + " for " + name), s[name := Enroll(a, email)])
  }

  /** Which answer a signup gets, in each case; every refused signup leaves
      the database as it was. */
  lemma SignupOutcomes(s: Store, name: string, email: string)
    ensures var r := Signup(s, name, email);
      && (r.outcome == NotFound <==> name !in s)
      && (r.outcome == AlreadySignedUp <==>
            name in s && email in Emails(s[name].participants))
      && (r.outcome == Full <==>
            && name in s && email !in Emails(s[name].participants)
            && |s[name].participants| >= s[name].maxParticipants)
      && (r.outcome.Ok? <==>
            && name in s && email !in Emails(s[name].participants)
            && |s[name].participants| < s[name].maxParticipants)
      && (!r.outcome.Ok? ==> r.store == s)
  {
  }

  /** The duplicate check comes first: an e-mail already on a full roster is
      reported as already signed up, not as a full activity. */
  lemma DuplicateReportedBeforeFull(s: Store, name: string, email: string)
    requires name in s && email in Emails(s[name].participants)
    requires |s[name].participants| >= s[name].maxParticipants
    ensures Signup(s, name, email) == Step(AlreadySignedUp, s)
  {
  }

  lemma {:induction false} EmailsAppend(ps: seq<Participant>, p: Participant)
    ensures Emails(ps + [p]) == Emails(ps) + [p.email]
  {
    var l, r := Emails(ps + [p]), Emails(ps) + [p.email];
    assert |l| == |r|;
    forall i | 0 <= i < |l| ensures l[i] == r[i] {
      if i < |ps| { assert (ps + [p])[i] == ps[i]; }
    }
  }

  /** A successful signup adds exactly one participant row, for that e-mail,
      at the end of that activity's roster; the activity's other fields and
      every other activity stay as they were, and the e-mail now shows in the
      activity's entry of the listing. */
  lemma SignupAddsParticipant(s: Store, name: string, email: string)
    requires Signup(s, name, email).outcome.Ok?
    ensures var t := Signup(s, name, email).store;
      && name in s
      && t.Keys == s.Keys
      && (forall n :: n in s && n != name ==> t[n] == s[n])
      && t[name].name == s[name].name
      && t[name].description == s[name].description
      && t[name].schedule == s[name].schedule
      && t[name].maxParticipants == s[name].maxParticipants
      && t[name].participants == s[name].participants + [Participant(email, s[name].name)]
      && |t[name].participants| == |s[name].participants| + 1
      && Listing(t)[name].participants == Listing(s)[name].participants + [email]
      && email in Listing(t)[name].participants
  {
    EmailsAppend(s[name].participants, Participant(email, s[name].name));
  }

  /** Signup keeps both roster invariants, whatever its outcome. */
  lemma SignupPreservesValid(s: Store, name: string, email: string)
    requires ValidStore(s)
    ensures ValidStore(Signup(s, name, email).store)
  {
    var r := Signup(s, name, email);
    if r.outcome.Ok? {
      var ps := s[name].participants;
      var qs := r.store[name].participants;
      forall i | 0 <= i < |ps| ensures ps[i].email != email {
        assert Emails(ps)[i] == ps[i].email;
      }
      assert qs == ps + [Participant(email, name)];
      assert DistinctEmails(qs) by {
        forall i, j | 0 <= i < j < |qs| ensures qs[i].email != qs[j].email {
          assert qs[i] == ps[i];
        }
      }
      assert ValidActivity(name, r.store[name]);
    }
  }

  // ---------------------------------------------------------------------
  // Unregistering
  // ---------------------------------------------------------------------

  /** The position of the first participant of `ps` with that exact e-mail. */
  function FirstMatch(ps: seq<Participant>, email: string): (r: Option<nat>)
    ensures r.None? <==> email !in Emails(ps)
    ensures r.Some? ==>
              && r.value < |ps|
              && ps[r.value].email == email
              && forall j :: 0 <= j < r.value ==> ps[j].email != email
  {
    if ps == [] then None
    else if ps[0].email == email then Some(0)
    else
      match FirstMatch(ps[1..], email)
      case None => None
      case Some(i) => Some(i + 1)
  }

  /** The roster of `a` without its `i`-th participant row. */
  function Withdraw(a: Activity, i: nat): Activity
    requires i < |a.participants|
  {
    a.(participants := a.participants[..i] + a.participants[i + 1..])
  }

  /** DELETE /activities/{name}/unregister?email=...: the activity must exist
      and the e-mail must be on its roster; the first participant row with
      that e-mail is deleted. */
  function Unregister(s: Store, name: string, email: string): (r: Step)
    ensures r.store.Keys == s.Keys
    ensures forall n :: n in s && n != name ==> r.store[n] == s[n]
    ensures r.outcome.Ok? <==> r.store != s
  {
    if name !in s then Step(NotFound, s)
    else
      match FirstMatch(s[name].participants, email)
      case None => Step(NotSignedUp, s)
      case Some(i) => Step(Ok("Unregistered " + email + " from " + name), s[name := Withdraw(s[name], i)])
  }

  /** Which answer an unregister request gets, in each case; every refused
      request leaves the database as it was. */
  lemma UnregisterOutcomes(s: Store, name: string, email: string)
    ensures var r := Unregister(s, name, email);
      && (r.outcome == NotFound <==> name !in s)
      && (r.outcome == NotSignedUp <==>
            name in s && email !in Emails(s[name].participants))
      && (r.outcome.Ok? <==>
            name in s && email in Emails(s[name].participants))
      && (!r.outcome.Ok? ==> r.store == s)
  {
  }

  /** A successful unregister deletes the first participant row with that
      e-mail and nothing else: the roster shrinks by one, the activity's
      other fields and every other activity stay as they were. */
  lemma UnregisterRemovesFirstMatch(s: Store, name: string, email: string)
    requires Unregister(s, name, email).outcome.Ok?
    ensures var t := Unregister(s, name, email).store;
      && name in s
      && t.Keys == s.Keys
      && (forall n :: n in s && n != name ==> t[n] == s[n])
      && t[name].name == s[name].name
      && t[name].description == s[name].description
      && t[name].schedule == s[name].schedule
      && t[name].maxParticipants == s[name].maxParticipants
      && |t[name].participants| == |s[name].participants| - 1
      && exists i ::
           && 0 <= i < |s[name].participants|
           && s[name].participants[i].email == email
           && (forall j :: 0 <= j < i ==> s[name].participants[j].email != email)
           && t[name].participants == s[name].participants[..i] + s[name].participants[i + 1..]
  {
    var i := FirstMatch(s[name].participants, email).value;
    assert Unregister(s, name, email).store[name].participants
        == s[name].participants[..i] + s[name].participants[i + 1..];
  }

  /** Deleting one row from a roster without repeated e-mails keeps its
      e-mails distinct and its rows owned by the same activity, and leaves no
      row with the deleted row's e-mail. */
  lemma {:induction false} RemoveAtKeepsRoster(ps: seq<Participant>, k: nat, name: string)
    requires k < |ps|
    requires DistinctEmails(ps) && OwnedBy(ps, name)
    ensures DistinctEmails(ps[..k] + ps[k + 1..]) && OwnedBy(ps[..k] + ps[k + 1..], name)
    ensures ps[k].email !in Emails(ps[..k] + ps[k + 1..])
  {
    var qs := ps[..k] + ps[k + 1..];
    assert forall i :: 0 <= i < |qs| ==> qs[i] == ps[if i < k then i else i + 1];
    forall p | p in qs ensures p.activityName == name {
      var i :| 0 <= i < |qs| && qs[i] == p;
      assert p in ps;
    }
    forall i | 0 <= i < |qs| ensures Emails(qs)[i] != ps[k].email {
      assert qs[i] == ps[if i < k then i else i + 1];
    }
  }

  /** In a valid database (so on a roster without repeated e-mails), a
      successful unregister leaves the e-mail off the roster, and off the
      listing. */
  lemma UnregisterRemovesEmail(s: Store, name: string, email: string)
    requires ValidStore(s)
    requires Unregister(s, name, email).outcome.Ok?
    ensures var t := Unregister(s, name, email).store;
      && name in t
      && email !in Emails(t[name].participants)
      && email !in Listing(t)[name].participants
  {
    var ps := s[name].participants;
    var k := FirstMatch(ps, email).value;
    RemoveAtKeepsRoster(ps, k, name);
    assert Unregister(s, name, email).store[name].participants == ps[..k] + ps[k + 1..];
  }

  /** Unregister keeps both roster invariants, whatever its outcome. */
  lemma UnregisterPreservesValid(s: Store, name: string, email: string)
    requires ValidStore(s)
    ensures ValidStore(Unregister(s, name, email).store)
  {
    if Unregister(s, name, email).outcome.Ok? {
      RemoveAtKeepsRoster(s[name].participants, FirstMatch(s[name].participants, email).value, name);
    }
  }

  // ---------------------------------------------------------------------
  // Sequences of requests
  // ---------------------------------------------------------------------

  datatype Request =
    | SignupRequest(activity: string, email: string)
    | UnregisterRequest(activity: string, email: string)

  function Handle(s: Store, req: Request): Step
  {
    match req
    case SignupRequest(n, e) => Signup(s, n, e)
    case UnregisterRequest(n, e) => Unregister(s, n, e)
  }

  /** The database after handling `reqs` one after the other. */
  function Replay(s: Store, reqs: seq<Request>): Store
    decreases |reqs|
  {
    if reqs == [] then s else Replay(Handle(s, reqs[0]).store, reqs[1..])
  }

  /** Both roster invariants hold after any sequence of requests. */
  lemma {:induction false} ReplayPreservesValid(s: Store, reqs: seq<Request>)
    requires ValidStore(s)
    ensures ValidStore(Replay(s, reqs))
    decreases |reqs|
  {
    if reqs != [] {
      match reqs[0] {
        case SignupRequest(n, e) => SignupPreservesValid(s, n, e);
        case UnregisterRequest(n, e) => UnregisterPreservesValid(s, n, e);
      }
      ReplayPreservesValid(Handle(s, reqs[0]).store, reqs[1..]);
    }
  }

  /** One request touches rosters only: the set of activities and each
      activity's name, description, schedule and capacity stay as they were. */
  lemma HandleKeepsActivities(s: Store, req: Request)
    ensures var t := Handle(s, req).store;
      && t.Keys == s.Keys
      && forall n :: n in s ==>
           && t[n].name == s[n].name
           && t[n].description == s[n].description
           && t[n].schedule == s[n].schedule
           && t[n].maxParticipants == s[n].maxParticipants
  {
    match req {
      case SignupRequest(n, e) =>
        SignupOutcomes(s, n, e);
        if Signup(s, n, e).outcome.Ok? { SignupAddsParticipant(s, n, e); }
      case UnregisterRequest(n, e) =>
        UnregisterOutcomes(s, n, e);
        if Unregister(s, n, e).outcome.Ok? { UnregisterRemovesFirstMatch(s, n, e); }
    }
  }

  /** Requests touch rosters only: after any sequence of requests the set of
      activities and each activity's name, description, schedule and capacity
      are those of the start. */
  lemma {:induction false} ReplayKeepsActivities(s: Store, reqs: seq<Request>)
    ensures Replay(s, reqs).Keys == s.Keys
    ensures forall n :: n in s ==>
              && Replay(s, reqs)[n].name == s[n].name
              && Replay(s, reqs)[n].description == s[n].description
              && Replay(s, reqs)[n].schedule == s[n].schedule
              && Replay(s, reqs)[n].maxParticipants == s[n].maxParticipants
    decreases |reqs|
  {
    if reqs != [] {
      HandleKeepsActivities(s, reqs[0]);
      ReplayKeepsActivities(Handle(s, reqs[0]).store, reqs[1..]);
    }
  }

  /** From start-up on (an empty database, then seeding), every state reached
      by handling requests satisfies both roster invariants. */
  lemma ServiceLifetimeValid(reqs: seq<Request>)
    ensures ValidStore(Replay(Seed(map[]), reqs))
  {
    SeedValid(map[]);
    ReplayPreservesValid(Seed(map[]), reqs);
  }

  /** On a restart the database is persisted and seeding is skipped; if the
      stored database is valid, every state reached by handling requests is
      valid again. */
  lemma RestartValid(s: Store, reqs: seq<Request>)
    requires ValidStore(s)
    ensures ValidStore(Replay(Seed(s), reqs))
  {
    SeedValid(s);
    ReplayPreservesValid(Seed(s), reqs);
  }

  // ---------------------------------------------------------------------
  // The database as the service sees it
  // ---------------------------------------------------------------------

  class ActivityStore {
    var activities: Store

    /** A freshly created database holds no activity. */
    constructor ()
      ensures activities == map[]
    {
      activities := map[];
    }

    /** Seeds the default activities if, and only if, the database is empty. */
    method SeedDefaultData()
      modifies this
      ensures activities == Seed(old(activities))
      ensures old(activities) == map[] ==> activities == DefaultStore()
      ensures old(activities) != map[] ==> activities == old(activities)
    {
      if activities != map[] {
        return;
      }
      activities := StoreOf(Defaults());
    }

    /** GET /activities: one entry per activity, built one activity at a time. */
    method GetActivities() returns (view: map<string, ActivityView>)
      ensures view == Listing(activities)
    {
      view := map[];
      var rest := activities.Keys;
      while rest != {}
        invariant rest <= activities.Keys
        invariant view.Keys == activities.Keys - rest
        invariant forall n :: n in view ==> view[n] == ViewOf(activities[n])
        decreases rest
      {
        var n :| n in rest;
        var a := activities[n];
        view := view[n := ActivityView(a.description, a.schedule, a.maxParticipants, Emails(a.participants))];
        rest := rest - {n};
      }
    }

    /** POST /activities/{name}/signup?email=... as one atomic step. */
    method SignupForActivity(name: string, email: string) returns (outcome: Outcome)
      modifies this
      ensures Step(outcome, activities) == Signup(old(activities), name, email)
      ensures ValidStore(old(activities)) ==> ValidStore(activities)
    {
      if name !in activities {
        return NotFound;
      }
      var a := activities[name];
      var i := 0;
      while i < |a.participants|
        invariant 0 <= i <= |a.participants|
        invariant forall j :: 0 <= j < i ==> a.participants[j].email != email
      {
        if a.participants[i].email == email {
          assert Emails(a.participants)[i] == email;
          return AlreadySignedUp;
        }
        i := i + 1;
      }
      if |a.participants| >= a.maxParticipants {
        return Full;
      }
      var p := Participant(email, a.name);
      activities := activities[name := a.(participants := a.participants + [p])];
      outcome := Ok("Signed up " + email + " for " + name);
      if ValidStore(old(activities)) {
        SignupPreservesValid(old(activities), name, email);
      }
    }

    /** DELETE /activities/{name}/unregister?email=... as one atomic step. */
    method UnregisterFromActivity(name: string, email: string) returns (outcome: Outcome)
      modifies this
      ensures Step(outcome, activities) == Unregister(old(activities), name, email)
      ensures ValidStore(old(activities)) ==> ValidStore(activities)
    {
      if name !in activities {
        return NotFound;
      }
      var a := activities[name];
      var found: Option<nat> := None;
      var i := 0;
      while i < |a.participants|
        invariant 0 <= i <= |a.participants|
        invariant forall j :: 0 <= j < i ==> a.participants[j].email != email
      {
        if a.participants[i].email == email {
          found := Some(i);
          break;
        }
        i := i + 1;
      }
      if found.None? {
        return NotSignedUp;
      }
      var k := found.value;
      activities := activities[name := a.(participants := a.participants[..k] + a.participants[k + 1..])];
      outcome := Ok("Unregistered " + email + " from " + name);
      if ValidStore(old(activities)) {
        UnregisterPreservesValid(old(activities), name, email);
      }
    }
  }
}
