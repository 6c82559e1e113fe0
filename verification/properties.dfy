/** Properties of the assignment protocol that relate several handler calls:
    the cross-reference invariant and the one path that breaks it, the
    non-idempotent append, reassignment, reads after writes, and the
    append-only growth of rosters over any run of handler calls.
 */
module Properties {
  import opened Outcomes
  import opened Store
  import opened Handlers

  // ---------------------------------------------------------------------
  // The cross-reference invariant
  // ---------------------------------------------------------------------

  lemma EmptyConsistent()
    ensures Consistent(Empty)
  {
  }

  /** A new mentor is referenced by no student, and no roster changes. */
  lemma CreateMentorPreservesConsistent(s: State, name: string, id: MentorId, fail: bool)
    requires Consistent(s)
    ensures Consistent(CreateMentor(s, name, id, fail).store)
  {
  }

  /** A new student points at no mentor. */
  lemma CreateStudentPreservesConsistent(s: State, name: string, id: StudentId, fail: bool)
    requires Consistent(s)
    ensures Consistent(CreateStudent(s, name, id, fail).store)
  {
  }

  /** Every path of `Assign` keeps the invariant except the one on which the
      save of the mentor fails after the student has been written (a store
      call that reports an error is taken to have written nothing). */
  lemma AssignPreservesConsistent(s: State, mentorId: MentorId, studentId: StudentId, faults: AssignFaults)
    requires Consistent(s)
    requires !faults.saveMentor
    ensures Consistent(Assign(s, mentorId, studentId, faults).store)
  {
  }

  /** The partial failure: when the student write lands and the save of the
      mentor then fails, the caller sees a storage failure while the student
      already points at a mentor whose roster does not list it. If it was not
      listed before, the invariant is broken. */
  lemma SaveFailureBreaksConsistent(s: State, mentorId: MentorId, studentId: StudentId)
    requires mentorId in s.mentors && studentId in s.students
    requires studentId !in s.mentors[mentorId].students
    ensures var r := Assign(s, mentorId, studentId, AssignFaults(false, false, true));
      && r.result == Err(StorageFailure)
      && GetMentor(r.store, studentId, false) == Ok(Some(mentorId))
      && ListStudents(r.store, mentorId, false) == ListStudents(s, mentorId, false)
      && !Consistent(r.store)
  {
  }

  /** The broken state is reachable from the empty store by the handlers alone. */
  lemma PartialFailureReachable()
    ensures var m := CreateMentor(Empty, "Alice", ObjectId(1), false);
      var st := CreateStudent(m.store, "Bob", ObjectId(2), false);
      var a := Assign(st.store, ObjectId(1), ObjectId(2), AssignFaults(false, false, true));
      && Consistent(st.store)
      && a.result == Err(StorageFailure)
      && !Consistent(a.store)
  {
  }

  // ---------------------------------------------------------------------
  // Non-idempotence and reassignment
  // ---------------------------------------------------------------------

  /** Assigning the same pair twice succeeds twice and lists the student twice:
      the append is unconditional. The student document ends up the same as
      after the first call. */
  lemma AssignTwiceDuplicates(s: State, mentorId: MentorId, studentId: StudentId)
    requires mentorId in s.mentors && studentId in s.students
    ensures var first := Assign(s, mentorId, studentId, NoFaults);
      var second := Assign(first.store, mentorId, studentId, NoFaults);
      && first.result == Ok(())
      && second.result == Ok(())
      && second.store.students == first.store.students
      && ListStudents(second.store, mentorId, false)
         == Ok(s.mentors[mentorId].students + [studentId, studentId])
      && multiset(second.store.mentors[mentorId].students)[studentId]
         == multiset(s.mentors[mentorId].students)[studentId] + 2
      && second.store != first.store
  {
    var first := Assign(s, mentorId, studentId, NoFaults);
    var second := Assign(first.store, mentorId, studentId, NoFaults);
    var before := s.mentors[mentorId].students;
    assert second.store.mentors[mentorId].students == before + [studentId] + [studentId];
    assert before + [studentId] + [studentId] == before + [studentId, studentId];
    assert |second.store.mentors[mentorId].students| != |first.store.mentors[mentorId].students|;
  }

  /** Assigning an assigned student to another mentor overwrites its mentor
      and leaves the stale entry in the first mentor's roster. */
  lemma ReassignLeavesStaleEntry(s: State, first: MentorId, second: MentorId, studentId: StudentId)
    requires first != second
    requires first in s.mentors && second in s.mentors && studentId in s.students
    requires s.students[studentId].mentor == Some(first)
    requires studentId in s.mentors[first].students
    ensures var r := Assign(s, second, studentId, NoFaults);
      && r.result == Ok(())
      && GetMentor(r.store, studentId, false) == Ok(Some(second))
      && ListStudents(r.store, first, false) == ListStudents(s, first, false)
      && studentId in r.store.mentors[first].students
      && studentId in r.store.mentors[second].students
  {
  }

  // ---------------------------------------------------------------------
  // Reads
  // ---------------------------------------------------------------------

  /** After a successful assignment both directions of the relationship read
      back: the student's mentor is the mentor, and the mentor's roster lists
      the student, last. */
  lemma AssignThenRead(s: State, mentorId: MentorId, studentId: StudentId, faults: AssignFaults)
    requires Assign(s, mentorId, studentId, faults).result.Ok?
    ensures var t := Assign(s, mentorId, studentId, faults).store;
      && GetMentor(t, studentId, false) == Ok(Some(mentorId))
      && ListStudents(t, mentorId, false).Ok?
      && var roster := ListStudents(t, mentorId, false).value;
         |roster| > 0 && roster[|roster| - 1] == studentId
  {
  }

  /** In a consistent store the two reads agree: the mentor a student reads
      back lists that student. */
  lemma ConsistentReadsAgree(s: State, studentId: StudentId, mentorId: MentorId)
    requires Consistent(s)
    requires GetMentor(s, studentId, false) == Ok(Some(mentorId))
    ensures ListStudents(s, mentorId, false).Ok?
    ensures studentId in ListStudents(s, mentorId, false).value
  {
  }

  /** A new mentor lists no students, and a new student reads back no mentor;
      neither is an error. */
  lemma CreatedRecordsReadEmpty(s: State, mentorName: string, mentorId: MentorId,
                                studentName: string, studentId: StudentId)
    requires mentorId !in s.mentors && studentId !in s.students
    ensures var m := CreateMentor(s, mentorName, mentorId, false).store;
      var t := CreateStudent(m, studentName, studentId, false).store;
      && ListStudents(t, mentorId, false) == Ok([])
      && GetMentor(t, studentId, false) == Ok(None)
  {
  }

  /** An id from the generator is always accepted by the store, so creation
      fails only when the store itself errors. */
  lemma FreshIdCreates(s: State, name: string)
    ensures CreateMentor(s, name, FreshId(s.mentors.Keys), false).result.Ok?
    ensures CreateStudent(s, name, FreshId(s.students.Keys), false).result.Ok?
  {
  }

  /** A worked example: create Alice and Bob,
      assign Bob to Alice, and read the relationship back both ways. */
  lemma AliceAndBob()
    ensures var m := CreateMentor(Empty, "Alice", ObjectId(1), false);
      var st := CreateStudent(m.store, "Bob", ObjectId(2), false);
      var a := Assign(st.store, ObjectId(1), ObjectId(2), NoFaults);
      && m.result == Ok(ObjectId(1))
      && st.result == Ok(ObjectId(2))
      && a.result == Ok(())
      && ListStudents(a.store, ObjectId(1), false) == Ok([ObjectId(2)])
      && a.store.students[ObjectId(2)] == Student("Bob", Some(ObjectId(1)))
      && GetMentor(a.store, ObjectId(2), false) == Ok(Some(ObjectId(1)))
      && a.store.mentors[ObjectId(1)].name == "Alice"
      && Consistent(a.store)
  {
    var m := CreateMentor(Empty, "Alice", ObjectId(1), false);
    var st := CreateStudent(m.store, "Bob", ObjectId(2), false);
    EmptyConsistent();
    CreateMentorPreservesConsistent(Empty, "Alice", ObjectId(1), false);
    CreateStudentPreservesConsistent(m.store, "Bob", ObjectId(2), false);
    AssignPreservesConsistent(st.store, ObjectId(1), ObjectId(2), NoFaults);
    var a := Assign(st.store, ObjectId(1), ObjectId(2), NoFaults);
    assert a.store.mentors[ObjectId(1)].students == [] + [ObjectId(2)];
    assert [] + [ObjectId(2)] == [ObjectId(2)];
  }

  // ---------------------------------------------------------------------
  // Runs of handler calls
  // ---------------------------------------------------------------------

  /** One state-changing request, with the store errors it meets. */
  datatype Request =
    | NewMentor(name: string, id: MentorId, fail: bool)
    | NewStudent(name: string, id: StudentId, fail: bool)
    | AssignStudent(mentorId: MentorId, studentId: StudentId, faults: AssignFaults)

  function Apply(s: State, q: Request): State {
    match q
    case NewMentor(name, id, fail) => CreateMentor(s, name, id, fail).store
    case NewStudent(name, id, fail) => CreateStudent(s, name, id, fail).store
    case AssignStudent(mentorId, studentId, faults) => Assign(s, mentorId, studentId, faults).store
  }

  /** The store after serving the requests one at a time, in order. */
  function Run(s: State, qs: seq<Request>): State
    decreases |qs|
  {
    if qs == [] then s else Run(Apply(s, qs[0]), qs[1..])
  }

  /** The request is not an assignment whose mentor save fails. */
  predicate SavesRoster(q: Request) {
    !(q.AssignStudent? && q.faults.saveMentor)
  }

  /** Served sequentially, the requests keep the invariant as long as no
      assignment loses its mentor save; every other error is harmless. */
  lemma {:induction false} RunPreservesConsistent(s: State, qs: seq<Request>)
    requires Consistent(s)
    requires forall i :: 0 <= i < |qs| ==> SavesRoster(qs[i])
    ensures Consistent(Run(s, qs))
    decreases |qs|
  {
    if qs != [] {
      assert SavesRoster(qs[0]);
      match qs[0] {
        case NewMentor(name, id, fail) => CreateMentorPreservesConsistent(s, name, id, fail);
        case NewStudent(name, id, fail) => CreateStudentPreservesConsistent(s, name, id, fail);
        case AssignStudent(mentorId, studentId, faults) => AssignPreservesConsistent(s, mentorId, studentId, faults);
      }
      forall i | 0 <= i < |qs[1..]| ensures SavesRoster(qs[1..][i]) {
        assert qs[1..][i] == qs[i + 1];
      }
      RunPreservesConsistent(Apply(s, qs[0]), qs[1..]);
    }
  }

  /** Nothing is ever deleted, names never change, and a roster only grows at
      its end: what a mentor listed before any run it still lists, in the same
      order, as a prefix. */
  predicate Extends(s: State, t: State) {
    && s.students.Keys <= t.students.Keys
    && (forall sid :: sid in s.students ==> t.students[sid].name == s.students[sid].name)
    && s.mentors.Keys <= t.mentors.Keys
    && (forall mid :: mid in s.mentors ==>
          t.mentors[mid].name == s.mentors[mid].name
          && s.mentors[mid].students <= t.mentors[mid].students)
  }

  lemma ApplyExtends(s: State, q: Request)
    ensures Extends(s, Apply(s, q))
  {
  }

  lemma ExtendsTransitive(s: State, t: State, u: State)
    requires Extends(s, t) && Extends(t, u)
    ensures Extends(s, u)
  {
  }

  lemma {:induction false} RunExtends(s: State, qs: seq<Request>)
    ensures Extends(s, Run(s, qs))
    decreases |qs|
  {
    if qs == [] {
      assert Run(s, qs) == s;
    } else {
      ApplyExtends(s, qs[0]);
      RunExtends(Apply(s, qs[0]), qs[1..]);
      ExtendsTransitive(s, Apply(s, qs[0]), Run(s, qs));
    }
  }

  // ---------------------------------------------------------------------
  // References always resolve
  // ---------------------------------------------------------------------

  /** Every roster entry names an existing student, and every mentor a
      student points at exists. */
  predicate NoDangling(s: State) {
    && (forall mid, sid :: mid in s.mentors && sid in s.mentors[mid].students ==> sid in s.students)
    && (forall sid :: sid in s.students && s.students[sid].mentor.Some? ==>
          s.students[sid].mentor.value in s.mentors)
  }

  lemma EmptyNoDangling()
    ensures NoDangling(Empty)
  {
  }

  lemma CreateMentorKeepsNoDangling(s: State, name: string, id: MentorId, fail: bool)
    requires NoDangling(s)
    ensures NoDangling(CreateMentor(s, name, id, fail).store)
  {
    var t := CreateMentor(s, name, id, fail).store;
    forall mid, sid | mid in t.mentors && sid in t.mentors[mid].students ensures sid in t.students {
      if mid != id || t == s { assert t.mentors[mid] == s.mentors[mid]; }
    }
  }

  /** Assignment only writes references to the two records it has found. */
  lemma AssignKeepsNoDangling(s: State, mentorId: MentorId, studentId: StudentId, faults: AssignFaults)
    requires NoDangling(s)
    ensures NoDangling(Assign(s, mentorId, studentId, faults).store)
  {
    var t := Assign(s, mentorId, studentId, faults).store;
    forall mid, sid | mid in t.mentors && sid in t.mentors[mid].students ensures sid in t.students {
      if mid == mentorId && t.mentors[mid] != s.mentors[mid] {
        var before := s.mentors[mid].students;
        assert t.mentors[mid].students == before + [studentId];
        assert sid in before || sid == studentId;
      } else {
        assert t.mentors[mid] == s.mentors[mid];
      }
    }
    forall sid | sid in t.students && t.students[sid].mentor.Some?
      ensures t.students[sid].mentor.value in t.mentors
    {
      if sid != studentId { assert t.students[sid] == s.students[sid]; }
    }
  }

  /** Creation adds a record and never a reference. */
  lemma ApplyKeepsNoDangling(s: State, q: Request)
    requires NoDangling(s)
    ensures NoDangling(Apply(s, q))
  {
    match q {
      case NewMentor(name, id, fail) => CreateMentorKeepsNoDangling(s, name, id, fail);
      case NewStudent(name, id, fail) =>
      case AssignStudent(mentorId, studentId, faults) => AssignKeepsNoDangling(s, mentorId, studentId, faults);
    }
  }

  lemma {:induction false} RunKeepsNoDangling(s: State, qs: seq<Request>)
    requires NoDangling(s)
    ensures NoDangling(Run(s, qs))
    decreases |qs|
  {
    if qs != [] {
      ApplyKeepsNoDangling(s, qs[0]);
      RunKeepsNoDangling(Apply(s, qs[0]), qs[1..]);
    }
  }

  /** On a store without dangling references the reads return only ids of
      existing records, so returning ids loses nothing against expanding
      them into the records they name. */
  lemma NoDanglingReadsResolve(s: State, mentorId: MentorId, studentId: StudentId)
    requires NoDangling(s)
    ensures ListStudents(s, mentorId, false).Ok? ==>
      forall i :: 0 <= i < |ListStudents(s, mentorId, false).value| ==>
        ListStudents(s, mentorId, false).value[i] in s.students
    ensures GetMentor(s, studentId, false).Ok? && GetMentor(s, studentId, false).value.Some? ==>
      GetMentor(s, studentId, false).value.value in s.mentors
  {
  }
}
