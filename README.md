# Activity rosters of the Mergington High School API, in Dafny

This project models the roster rules of a small school service in which
students sign up for extracurricular activities. The database holds
activities (name, description, schedule, capacity) and participant rows (an
e-mail and a reference to the owning activity). The service has three
requests:

- the listing of all activities with the e-mails on each roster;
- signing up, which checks in this order that the activity exists, that the
  e-mail is not on its roster yet (exact, case-sensitive match) and that the
  roster is not full, and only then adds the participant;
- unregistering, which checks that the activity exists, looks for the first
  participant with that e-mail, and deletes that participant.

On start-up the database is seeded with nine activities, but only when it
is empty.

`db.dfy` (module `Db`) holds the records as datatypes, the two roster
invariants (`ValidStore`), the seed data and the seeding lemmas. `app.dfy`
(module `App`) holds three things:

- the requests as pure step functions (`Signup`, `Unregister`, `Listing`)
  and the lemmas about them;
- `Replay`, a fold of those steps over a sequence of requests;
- the class `ActivityStore`, whose field `activities` is the database. Its
  methods `SeedDefaultData`, `GetActivities`, `SignupForActivity` and
  `UnregisterFromActivity` do what the handlers do, with the same early-exit
  scans, and each is proved equal to its step function.

An HTTP error becomes an `Outcome`:

- `NotFound` is the 404 reply;
- `AlreadySignedUp`, `Full` and `NotSignedUp` are the 400 replies;
- `Ok` carries the confirmation message.

Modelling decisions:

- The database is a map from activity name to activity. Each request is one
  atomic step on that map.
- The `activity_id` foreign key of a participant is modelled by the owning
  activity's name.
- A roster is kept in insertion order: signup appends, unregister deletes
  in place.
- Integers are unbounded. Capacities are Python integers, so there is no
  wrap-around to model.
- The capacity check refuses when the roster's count is at least the
  capacity (`>=`).
- Signup and unregister answer with a confirmation message.
- Neither request publishes any event.

## Model

| member | source | states |
|---|---|---|
| `Db.ValidStore` | src/db.py:6-21 | the Participant and Activity records as every committed state holds them: each activity is keyed by its own name, its roster is within its capacity, no e-mail occurs twice on it, and every row references that activity |
| `Db.Emails` | src/app.py:49 | the listed e-mails are those of the roster, one per participant, in roster order |
| `Db.ParticipantInOneActivity` | src/db.py:11-12 | in a valid database a participant row is on the roster of at most one activity, since it carries a single activity reference |
| `Db.StoreOf` | src/db.py:64-65 | inserting a batch of activity rows makes every row's name a key, and every key holds a row of the batch carrying that name |
| `Db.StoreOfDistinct` | src/db.py:53-65 | when the inserted names are pairwise distinct, all rows are kept (as many keys as rows), each under its own name |
| `Db.NamedStore` | src/db.py:53-65 | the keys after inserting a batch are exactly the names of the batch |
| `Db.DefaultNamesDistinct` | src/db.py:53-62 | the nine seeded names are pairwise distinct, which matters because the name column is only indexed, not unique |
| `Db.DefaultsShape` | src/db.py:53-62 | the seed rows are, in order, Chess Club … Debate Team, each with an empty roster and a positive capacity |
| `Db.ShapedStore` | src/db.py:53-66 | rows of that shape yield a database with exactly the nine names, each holding its own row with an empty roster and a positive capacity |
| `Db.DefaultStoreContents` | src/db.py:53-66 | seeding an empty database gives exactly the nine listed activities: nine distinct keys, each holding its seed row (capacities 12, 20, 30, 22, 15, 15, 20, 10, 12), every roster empty |
| `Db.DefaultStoreValid` | src/db.py:53-62 | the seeded database satisfies both roster invariants |
| `Db.Seed` | src/db.py:44-66 | after seeding the database is never empty, and a database already holding an activity is returned unchanged |
| `Db.DefaultStoreNonEmpty` | src/db.py:53-66 | seeding an empty database leaves it non-empty |
| `Db.SeedIdempotent` | src/db.py:47-66 | seeding twice gives the same database as seeding once |
| `Db.SeedValid` | src/db.py:44-66 | seeding a valid database keeps it valid |
| `App.Listing` | src/app.py:38-51 | the listing answered by GET /activities has exactly one entry per activity |
| `App.ListingKeyedByName` | src/app.py:44-45 | in a valid database every activity is listed under its own name with its own view, as the handler keys the result by the row's name |
| `App.ListingMatchesStore` | src/app.py:38-51 | the listing has one entry per activity, copying description, schedule and capacity, and listing the roster's e-mails in roster order |
| `App.Signup` | src/app.py:54-75 | a signup (replies 404 "Activity not found", 400 "already signed up", 400 "full", or the confirmation message) never adds or removes an activity and touches no activity but the named one; it changes the database exactly when it succeeds |
| `App.SignupOutcomes` | src/app.py:58-75 | signup answers NotFound exactly when the activity is missing; AlreadySignedUp exactly when the e-mail is already on the roster, full or not; Full exactly when the e-mail is new and the count is at least the capacity; Ok exactly in the remaining case. Every refusal leaves the database unchanged |
| `App.DuplicateReportedBeforeFull` | src/app.py:63-70 | an e-mail already on a full roster is reported as AlreadySignedUp, not Full |
| `App.EmailsAppend` | src/app.py:49 | appending a participant appends its e-mail to the listed e-mails |
| `App.SignupAddsParticipant` | src/app.py:72-75 | a successful signup appends one row for that e-mail to that roster only. The count grows by one, the other fields and every other activity are unchanged, and the e-mail then appears in the listing |
| `App.SignupPreservesValid` | src/app.py:63-74 | whatever its outcome, signup keeps the roster within capacity and its e-mails distinct |
| `App.FirstMatch` | src/app.py:88-92 | the scan finds nothing exactly when the e-mail is not on the roster; otherwise it gives the first position holding that e-mail |
| `App.Unregister` | src/app.py:78-99 | an unregister (replies 404 "Activity not found", 400 "not signed up", or the confirmation message) never adds or removes an activity and touches no activity but the named one; it changes the database exactly when it succeeds |
| `App.UnregisterOutcomes` | src/app.py:82-95 | unregister answers NotFound exactly when the activity is missing, NotSignedUp exactly when the e-mail is not on the roster, and Ok otherwise. Every refusal leaves the database unchanged |
| `App.UnregisterRemovesFirstMatch` | src/app.py:88-98 | a successful unregister deletes the first row with that e-mail and nothing else. The count drops by one, and the other fields and every other activity are unchanged |
| `App.UnregisterRemovesEmail` | src/app.py:88-98 | in a valid database, the e-mail is absent from the roster and from the listing after a successful unregister |
| `App.RemoveAtKeepsRoster` | src/app.py:97-98 | deleting one participant row keeps the roster's e-mails distinct and its rows owned by the same activity |
| `App.UnregisterPreservesValid` | src/app.py:88-98 | whatever its outcome, unregister keeps both roster invariants |
| `App.ReplayPreservesValid` | src/app.py:54-99 | both roster invariants hold after any sequence of signup and unregister requests |
| `App.HandleKeepsActivities` | src/app.py:54-99 | a single signup or unregister request never adds or removes an activity, and never changes its name, description, schedule or capacity |
| `App.ReplayKeepsActivities` | src/app.py:54-99 | requests never add or remove an activity, and never change its name, description, schedule or capacity |
| `App.ServiceLifetimeValid` | src/app.py:26-30 | from start-up (empty database, then seeding), every state reached by requests satisfies both roster invariants |
| `App.RestartValid` | src/db.py:44-50 | on a restart with a persisted valid database, seeding is skipped and every state reached by requests satisfies both roster invariants |
| `App.ActivityStore.SeedDefaultData` | src/db.py:44-66 | inserts the nine default activities exactly when the database is empty, and otherwise leaves it unchanged |
| `App.ActivityStore.GetActivities` | src/app.py:38-51 | the loop over the activities builds exactly the listing of the current database, changing nothing |
| `App.ActivityStore.SignupForActivity` | src/app.py:54-75 | the handler with its early-exit duplicate scan gives the outcome and new database of `Signup` on the old database, and keeps the invariants |
| `App.ActivityStore.UnregisterFromActivity` | src/app.py:78-99 | the handler with its break-at-first-match scan gives the outcome and new database of `Unregister` on the old database, and keeps the invariants |

## Left out

- HTTP plumbing is not modelled: routing, the mapping of errors to status codes and detail texts, the static files mount, the root redirect and the start-up hook. The start-up sequence appears as `Seed(map[])` in `App.ServiceLifetimeValid` (first start), as `Seed(s)` in `App.RestartValid` (restart on a persisted database), and as the `ActivityStore` constructor followed by `SeedDefaultData`.
- The SQL engine and sessions are not modelled: engine creation, the database URL and its environment variable, table creation, and the session/commit machinery. They are library calls. The database is a value updated atomically per request.
- Concurrency is not modelled: racing requests and transaction isolation cannot be expressed in this sequential model.
- Duplicate activity names in the database cannot be represented, because the store is a map keyed by name. So the error `one_or_none` raises on two rows with the same name is not modelled. Seeding is proved never to create such a duplicate.
- The participant columns `id`, `name` and `grade` are not modelled: no modelled operation reads them. A participant is identified by its position on the roster.
- The database returns a roster in no guaranteed order, because the query has no ORDER BY. The model assumes insertion order.
- The listing is a map, so the order of its keys (the order of the JSON object) is not modelled.
- The event bus, live subscriptions, activity creation and activity update are not modelled. The service code modelled here has none of them. src/ws_client_example.py and src/test_ws.py are not part of this model.
