/** The request handlers, as pure step functions over the entity store.

    Each call the handlers make into the document store may raise an error;
    whether it does is an explicit boolean parameter, so every failure path
    of the handlers, including the partial failure of `Assign`, is a path of
    these functions.
 */
module Handlers {
  import opened Outcomes
  import opened Store

  /** Which of the three store calls of `Assign` raise an error: the lookup of
      the mentor, the update of the student, and the save of the mentor. A
      call that raises an error is taken to have had no effect. */
  datatype AssignFaults = AssignFaults(findMentor: bool, updateStudent: bool, saveMentor: bool)

  const NoFaults: AssignFaults := AssignFaults(false, false, false)

  /** Create a mentor under the id the driver generated. The new document has
      an empty roster. Inserting an id that is already taken is rejected by
      the store, like any other store error. */
  function CreateMentor(s: State, name: string, id: MentorId, fail: bool): (r: Step<MentorId>)
    ensures r.result.Ok? <==> !fail && id !in s.mentors
    ensures r.result.Ok? ==> r.result.value == id
    ensures r.result.Err? ==> r.result.error == StorageFailure && r.store == s
    ensures r.result.Ok? ==>
      && id in r.store.mentors
      && r.store.mentors[id] == Mentor(name, [])
      && r.store.mentors - {id} == s.mentors
      && r.store.students == s.students
      && |r.store.mentors| == |s.mentors| + 1
  {
    if fail || id in s.mentors then Step(Err(StorageFailure), s)
    else Step(Ok(id), s.(mentors := s.mentors[id := Mentor(name, [])]))
  }

  /** Create a student under the id the driver generated. The new document
      points at no mentor. */
  function CreateStudent(s: State, name: string, id: StudentId, fail: bool): (r: Step<StudentId>)
    ensures r.result.Ok? <==> !fail && id !in s.students
    ensures r.result.Ok? ==> r.result.value == id
    ensures r.result.Err? ==> r.result.error == StorageFailure && r.store == s
    ensures r.result.Ok? ==>
      && id in r.store.students
      && r.store.students[id] == Student(name, None)
      && r.store.students - {id} == s.students
      && r.store.mentors == s.mentors
      && |r.store.students| == |s.students| + 1
  {
    if fail || id in s.students then Step(Err(StorageFailure), s)
    else Step(Ok(id), s.(students := s.students[id := Student(name, None)]))
  }

  /** Both lookups of `Assign` found their document, so the student write is attempted. */
  predicate ReachesStudentWrite(s: State, mentorId: MentorId, studentId: StudentId, faults: AssignFaults) {
    !faults.findMentor && mentorId in s.mentors && !faults.updateStudent && studentId in s.students
  }

  /** Assign a student to a mentor: look the mentor up, then set the student's
      mentor (which also looks the student up), then append the student to
      the roster of the mentor as it was read and save it. The two writes are
      not a transaction: when the save fails the student write stays. */
  function Assign(s: State, mentorId: MentorId, studentId: StudentId, faults: AssignFaults): (r: Step<()>)
    // the outcome, with the mentor checked before the student
    ensures r.result.Ok? <==> ReachesStudentWrite(s, mentorId, studentId, faults) && !faults.saveMentor
    ensures r.result == Err(MentorNotFound) <==> !faults.findMentor && mentorId !in s.mentors
    ensures r.result == Err(StudentNotFound) <==>
      !faults.findMentor && mentorId in s.mentors && !faults.updateStudent && studentId !in s.students
    // nothing is written unless both documents exist
    ensures !ReachesStudentWrite(s, mentorId, studentId, faults) ==> r.store == s
    // the student write, which survives a failed save
    ensures ReachesStudentWrite(s, mentorId, studentId, faults) ==>
      studentId in r.store.students &&
      r.store.students[studentId] == s.students[studentId].(mentor := Some(mentorId))
    // the roster append happens exactly when the whole assignment succeeds
    ensures r.result.Ok? ==>
      mentorId in r.store.mentors &&
      r.store.mentors[mentorId] == s.mentors[mentorId].(students := s.mentors[mentorId].students + [studentId])
    ensures r.result.Err? ==> r.store.mentors == s.mentors
    // nothing else changes, and no document is created or removed
    ensures r.store.mentors.Keys == s.mentors.Keys && r.store.students.Keys == s.students.Keys
    ensures r.store.mentors - {mentorId} == s.mentors - {mentorId}
    ensures r.store.students - {studentId} == s.students - {studentId}
  {
    if faults.findMentor then Step(Err(StorageFailure), s)
    else if mentorId !in s.mentors then Step(Err(MentorNotFound), s)
    else
      var mentor := s.mentors[mentorId];
      if faults.updateStudent then Step(Err(StorageFailure), s)
      else if studentId !in s.students then Step(Err(StudentNotFound), s)
      else
        var s1 := s.(students := s.students[studentId := s.students[studentId].(mentor := Some(mentorId))]);
        if faults.saveMentor then Step(Err(StorageFailure), s1)
        else
          var saved := mentor.(students := mentor.students + [studentId]);
          Step(Ok(()), s1.(mentors := s1.mentors[mentorId := saved]))
  }

  /** The roster of a mentor, in stored order with any duplicates. */
  function ListStudents(s: State, mentorId: MentorId, fail: bool): (r: Result<seq<StudentId>>)
    ensures fail ==> r == Err(StorageFailure)
    ensures r.Ok? <==> !fail && mentorId in s.mentors
    ensures r == Err(MentorNotFound) <==> !fail && mentorId !in s.mentors
    ensures r.Ok? ==> r.value == s.mentors[mentorId].students
  {
    if fail then Err(StorageFailure)
    else if mentorId !in s.mentors then Err(MentorNotFound)
    else Ok(s.mentors[mentorId].students)
  }

  /** The mentor a student points at; an unassigned student yields `None`,
      which is a success and not an error. */
  function GetMentor(s: State, studentId: StudentId, fail: bool): (r: Result<Option<MentorId>>)
    ensures fail ==> r == Err(StorageFailure)
    ensures r.Ok? <==> !fail && studentId in s.students
    ensures r == Err(StudentNotFound) <==> !fail && studentId !in s.students
    ensures r == Ok(None) <==> !fail && studentId in s.students && s.students[studentId].mentor.None?
    ensures forall m :: r == Ok(Some(m)) <==>
      !fail && studentId in s.students && s.students[studentId].mentor == Some(m)
  {
    if fail then Err(StorageFailure)
    else if studentId !in s.students then Err(StudentNotFound)
    else Ok(s.students[studentId].mentor)
  }
}
