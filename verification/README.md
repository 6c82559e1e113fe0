# Mentor/student assignment, as a state machine over an abstract store

The service keeps two document collections, mentors and students, and
links them in a many-to-one relationship. A mentor has a name and a roster:
an ordered list of student ids that may contain duplicates. A student has a
name and an optional reference to one mentor. The service has five handlers:

- create a mentor;
- create a student;
- assign a student to a mentor;
- list a mentor's students;
- get a student's mentor.

Assignment is the only protocol with state. It looks the mentor up, then
sets the student's mentor, then appends the student to the mentor's roster
and saves the mentor. The two writes are not a transaction.

This project models the document database as two finite maps from ids to
records (module `Store`, in `store.dfy`). Each handler is a pure function
from a store to its outcome and the next store (module `Handlers`, in
`handlers.dfy`). Each call into the database may fail. That is modelled as
a boolean parameter, so every 500 path of the source is a path of the model,
including the partial failure: the student is already written when the
mentor save fails. The outcome type, in `outcomes.dfy`, is `Ok(value)` or
`Err(MentorNotFound | StudentNotFound | StorageFailure)`. Module
`Properties`, in `properties.dfy`, proves properties that span several calls:

- the invariant a student's mentor keeps with that mentor's roster;
- the one path that breaks this invariant, given that a failed store call writes nothing;
- that the append is not idempotent;
- that reassignment leaves a stale roster entry;
- that each write can be read back;
- that rosters only grow at their end over any run of requests;
- that no reference ever points at a missing record.

The driver generates document ids. This is an oracle parameter of the
create handlers. A create with an id that is already taken fails with
`StorageFailure`, as the database's unique `_id` index would make it fail.
The ghost function `Store.FreshId` shows that an id that is not yet taken
always exists.

## Model

| member | source | states |
|---|---|---|
| Store.FreshId | server.js:29 | a generated document id is not already used in its collection |
| Handlers.CreateMentor | server.js:27-39 | it succeeds exactly when the save does not fail and the id is new; on success it returns the id and adds one mentor with the given name and an empty roster; all other records are unchanged; on failure it reports a storage failure and leaves the store unchanged |
| Handlers.CreateStudent | server.js:42-54 | it succeeds exactly when the save does not fail and the id is new; on success it adds one student with the given name and no mentor; all other records are unchanged; on failure it reports a storage failure and leaves the store unchanged |
| Handlers.Assign | server.js:57-92 | the mentor is checked first, then the student. It returns MentorNotFound exactly when the mentor lookup succeeds and finds nothing. It returns StudentNotFound exactly when the mentor exists and the student update finds nothing. It returns Ok exactly when both exist and no store call fails. Unless both documents are found, the store is unchanged. Once both are found, the student's mentor is set even if the later save fails. The roster gets the student appended only on success. No other record changes and no record is created or removed |
| Handlers.ListStudents | server.js:95-110 | on an existing mentor it returns the stored roster, in order, duplicates included. An absent mentor gives MentorNotFound. A store error gives StorageFailure |
| Handlers.GetMentor | server.js:113-128 | on an existing student it succeeds with `None` when the student is unassigned and `Some(m)` when it points at `m`. An absent student gives StudentNotFound. A store error gives StorageFailure |
| Properties.EmptyConsistent | server.js:16-24 | the store with no documents satisfies the cross-reference invariant |
| Properties.CreateMentorPreservesConsistent | server.js:27-39 | creating a mentor, on any path, keeps the invariant "a student's mentor lists the student" |
| Properties.CreateStudentPreservesConsistent | server.js:42-54 | creating a student, on any path, keeps the invariant |
| Properties.AssignPreservesConsistent | server.js:57-92 | every path of assign where the mentor save does not fail keeps the invariant, including the not-found paths and the early storage failures (which write nothing) |
| Properties.SaveFailureBreaksConsistent | server.js:67-82 | the student is written and then the mentor save fails. The caller sees StorageFailure. The student reads back the mentor, but the mentor's roster is unchanged, so the invariant no longer holds when the student was not already listed |
| Properties.PartialFailureReachable | server.js:27-82 | starting from the empty store, create a mentor, then a student, then assign with a failing save. The result violates the invariant, although the store was consistent before the assign |
| Properties.AssignTwiceDuplicates | server.js:78 | assigning the same pair twice succeeds both times. The roster then ends in the student id twice, its count of that id grows by two, and the student document is the same as after the first call |
| Properties.ReassignLeavesStaleEntry | server.js:67-84 | assigning a student to a second mentor overwrites its mentor. The first mentor's roster is unchanged and still lists the student |
| Properties.AssignThenRead | server.js:57-128 | after a successful assign, reading the student's mentor gives that mentor, and the mentor's roster ends with the student |
| Properties.ConsistentReadsAgree | server.js:95-128 | in a consistent store, the mentor a student reads back lists that student |
| Properties.CreatedRecordsReadEmpty | server.js:27-54 | for any names and any unused ids, a new mentor lists an empty roster and a new student has no mentor. Both reads succeed and neither is an error |
| Properties.FreshIdCreates | server.js:29-31 | creating a record under a freshly generated id succeeds whenever the store does not fail |
| Properties.AliceAndBob | server.js:27-128 | create mentor Alice, create student Bob, and assign Bob to Alice. Alice's roster is then exactly [Bob], Bob's mentor is Alice, and the store is consistent |
| Properties.RunPreservesConsistent | server.js:27-92 | any run of create and assign requests, served one at a time, keeps the invariant, provided no assign has a failing mentor save. Every other error is harmless to it |
| Properties.ApplyExtends | server.js:27-92 | one request never deletes a record, never renames one, and only appends to rosters |
| Properties.RunExtends | server.js:27-92 | over any run of requests, records are never deleted or renamed, and each earlier roster is a prefix of the later one |
| Properties.CreateMentorKeepsNoDangling | server.js:27-39 | creating a mentor, on any path, keeps every roster entry and every student's mentor reference pointing at an existing record |
| Properties.AssignKeepsNoDangling | server.js:57-92 | every path of assign, including the failed save, writes references only to the mentor and student it found, so no reference dangles |
| Properties.ApplyKeepsNoDangling | server.js:27-92 | no create or assign request introduces a reference to a missing record |
| Properties.EmptyNoDangling | server.js:16-24 | the store with no documents has no dangling references |
| Properties.RunKeepsNoDangling | server.js:27-92 | over any run of requests, starting without dangling references, none ever appears |
| Properties.NoDanglingReadsResolve | server.js:95-128 | on a store without dangling references, every id the roster read returns names an existing student and the mentor read returns an existing mentor |

## Left out

- HTTP routing is left out, being I/O glue: request parsing, JSON bodies, CORS, status codes and the listening port (server.js:1-7, 131-133). Only the outcome kind is modelled.
- The database connection and its configuration (server.js:9-13) are left out. The store is the pair of maps.
- Reference expansion (`populate`, server.js:99 and 117) is left out. The reads return the stored ids, not the expanded records. `Properties.RunKeepsNoDangling` shows that from the empty store every stored reference names an existing record, so expansion never meets a missing document there.
- Casting a malformed id is left out. Such an id makes the lookup raise an error, which is the storage-failure flag of that call.
- The name field is modelled as a string. The model does not cover a missing or non-string `name` in the request body, which the schema would store as absent or cast.
- Two assigns racing on one mentor can lose a roster append. This is left out because it is concurrency: the model serves one request at a time. Because of this, the mentor that assign saves equals the one it read.
- Logging (`console.error`, `console.log`) is left out.
- Handlers.Assign: a store call that reports an error is modelled as having had no effect, in this and every other handler. A real write can be applied and still report an error, for example after a network error or a write-concern timeout. In that case the student update (server.js:67-74) can land while the handler answers with a storage failure, which is a second way to break the invariant. The invariant lemmas (`Properties.AssignPreservesConsistent`, `Properties.RunPreservesConsistent`) hold only under this no-effect reading of errors.
- Store.FreshId: the driver's real id generator (timestamp, random value, counter) is replaced by "some id not yet in the collection". The create handlers take the generated id as a parameter.
