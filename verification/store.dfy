/** The entity store: the Mentor and Student collections as two finite maps.

    Both collections are keyed by document ids. A mentor holds its roster,
    an ordered sequence of student ids that may contain duplicates; a
    student holds an optional reference to one mentor.
 */
module Store {
  import opened Outcomes

  /** An opaque document id, as generated by the store's driver. */
  datatype ObjectId = ObjectId(n: nat)

  type MentorId = ObjectId
  type StudentId = ObjectId

  /** A Mentor document: a free-text name and the roster of assigned students. */
  datatype Mentor = Mentor(name: string, students: seq<StudentId>)

  /** A Student document: a free-text name and the mentor it points at, if any. */
  datatype Student = Student(name: string, mentor: Option<MentorId>)

  /** The whole persisted state: one map per collection. */
  datatype State = State(mentors: map<MentorId, Mentor>, students: map<StudentId, Student>)

  /** What a state-changing handler produces: its outcome and the store after it. */
  datatype Step<+T> = Step(result: Result<T>, store: State)

  /** The store before any document has been created. */
  const Empty: State := State(map[], map[])

  /** The cross-reference the design intends to hold: a student that points at
      a mentor is found in that mentor's roster. The converse is not part of
      it: a roster may list a student that now points elsewhere. */
  predicate Consistent(s: State) {
    forall sid :: sid in s.students && s.students[sid].mentor.Some? ==>
      var mid := s.students[sid].mentor.value;
      mid in s.mentors && sid in s.mentors[mid].students
  }

  /** A strict upper bound on the numbers of the given ids. */
  ghost function Bound(ids: set<ObjectId>): (b: nat)
    ensures forall id :: id in ids ==> id.n < b
    decreases ids
  {
    if ids == {} then 0
    else
      var id :| id in ids;
      var rest := Bound(ids - {id});
      if rest <= id.n then id.n + 1 else rest
  }

  /** An id the id generator may hand out: one not yet used in the collection. */
  ghost function FreshId(ids: set<ObjectId>): (id: ObjectId)
    ensures id !in ids
  {
    ObjectId(Bound(ids))
  }
}
