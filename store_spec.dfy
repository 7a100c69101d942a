/**
 * The state of a `StudentManager` as a value, and each of its operations
 * as a function from the state before to the state after and the boolean
 * the operation returns.  The class in module Manager is proved to follow
 * these functions; the lemmas in module StoreLemmas state what they
 * guarantee.
 */
module StoreSpec {
  import opened Records

  /** `_save_state` keeps at most this many undo entries. */
  const MaxHistory: nat := 10

  /** One undo entry: the operation and the data its inverse needs.  The
      timestamp the source records is not kept (nothing reads it). */
  datatype Action =
    | Added(id: string)
    | Removed(snapshot: Student)
    | Enrolled(id: string, subject: string)
    | Completed(id: string, subject: string, mark: int)

  /** The student collection, in insertion order, and the undo stack,
      newest entry last. */
  datatype Store = Store(students: seq<Student>, history: seq<Action>)

  /** A state after an operation and the boolean the operation returned. */
  datatype Step = Step(store: Store, ok: bool)

  /** Position of the first student with this id (`search_student`). */
  function IndexOf(students: seq<Student>, id: string): (r: Option<nat>)
    ensures r.Some? ==> r.value < |students| && students[r.value].id == id
                        && forall j :: 0 <= j < r.value ==> students[j].id != id
    ensures r.None? <==> forall j :: 0 <= j < |students| ==> students[j].id != id
  {
    if students == [] then None
    else if students[0].id == id then Some(0)
    else match IndexOf(students[1..], id)
      case None => None
      case Some(k) => Some(k + 1)
  }

  /** `search_student`: the first student with this id, if any. */
  function Search(students: seq<Student>, id: string): (r: Option<Student>)
    ensures r.Some? ==> r.value in students && r.value.id == id
    ensures r.None? <==> forall st :: st in students ==> st.id != id
  {
    match IndexOf(students, id)
    case None => None
    case Some(k) => Some(students[k])
  }

  /** `_save_state`: push an entry; when that makes 11, drop the oldest. */
  function Push(history: seq<Action>, a: Action): (r: seq<Action>)
    ensures |history| <= MaxHistory ==> |r| <= MaxHistory
    ensures |r| > 0 && r[|r| - 1] == a
    ensures |history| < MaxHistory ==> r == history + [a]
    ensures |history| == MaxHistory ==> r == history[1..] + [a]
    ensures forall x :: x in r ==> x in history || x == a
  {
    var h := history + [a];
    if |h| > MaxHistory then h[1..] else h
  }

  /** `add_student`: refused, with nothing changed, when the id is taken;
      otherwise the record goes at the end and one entry is pushed. */
  function Add(s: Store, st: Student): (r: Step)
    ensures r.ok <==> Search(s.students, st.id).None?
    ensures !r.ok ==> r.store == s
    ensures r.ok ==> r.store.students == s.students + [st]
    ensures r.ok ==> r.store.history == Push(s.history, Added(st.id))
  {
    if IndexOf(s.students, st.id).Some? then Step(s, false)
    else Step(Store(s.students + [st], Push(s.history, Added(st.id))), true)
  }

  /** `remove_student`: refused, with nothing changed, when no student has
      the id; otherwise the collection is one record shorter and the entry
      pushed keeps the first record with that id. */
  function Remove(s: Store, id: string): (r: Step)
    ensures r.ok <==> Search(s.students, id).Some?
    ensures !r.ok ==> r.store == s
    ensures r.ok ==> |r.store.students| == |s.students| - 1
    ensures r.ok ==> r.store.history == Push(s.history, Removed(Search(s.students, id).value))
  {
    match IndexOf(s.students, id)
    case None => Step(s, false)
    case Some(k) =>
      Step(Store(RemoveAt(s.students, k), Push(s.history, Removed(s.students[k]))), true)
  }

  /** `update_enrollment`: succeeds exactly when the student exists and the
      subject is neither enrolled nor completed; a refusal changes nothing;
      a success keeps every id in place and pushes one entry. */
  function Enroll(s: Store, id: string, subject: string): (r: Step)
    ensures r.ok <==> Search(s.students, id).Some?
                      && subject !in Search(s.students, id).value.enrolled
                      && subject !in Search(s.students, id).value.completed
    ensures !r.ok ==> r.store == s
    ensures r.ok ==> |r.store.students| == |s.students|
                     && forall j :: 0 <= j < |s.students| ==> r.store.students[j].id == s.students[j].id
    ensures r.ok ==> r.store.history == Push(s.history, Enrolled(id, subject))
  {
    match IndexOf(s.students, id)
    case None => Step(s, false)
    case Some(k) =>
      var st := s.students[k];
      if subject in st.enrolled || subject in st.completed then Step(s, false)
      else
        var st' := st.(enrolled := st.enrolled + [subject]);
        Step(Store(s.students[k := st'], Push(s.history, Enrolled(id, subject))), true)
  }

  /** `mark_subject_completed`: succeeds exactly when the student exists,
      is enrolled in the subject and the mark is in 0..100; a refusal
      changes nothing; a success keeps every id in place and pushes one
      entry. */
  function Complete(s: Store, id: string, subject: string, mark: int): (r: Step)
    ensures r.ok <==> Search(s.students, id).Some?
                      && subject in Search(s.students, id).value.enrolled
                      && 0 <= mark <= 100
    ensures !r.ok ==> r.store == s
    ensures r.ok ==> |r.store.students| == |s.students|
                     && forall j :: 0 <= j < |s.students| ==> r.store.students[j].id == s.students[j].id
    ensures r.ok ==> r.store.history == Push(s.history, Completed(id, subject, mark))
  {
    match IndexOf(s.students, id)
    case None => Step(s, false)
    case Some(k) =>
      var st := s.students[k];
      if subject !in st.enrolled then Step(s, false)
      else if !(0 <= mark <= 100) then Step(s, false)
      else
        var st' := st.(enrolled := RemoveFirst(st.enrolled, subject),
                       completed := st.completed + [subject],
                       marks := st.marks + [mark]);
        Step(Store(s.students[k := st'], Push(s.history, Completed(id, subject, mark))), true)
  }

  /** The students after undoing the completion of `subject` by the student
      at `k`, and whether it got through: the subject leaves `completed` at
      its first position and the mark at that position leaves `marks`; when
      `marks` is too short to have that position, `pop` raises after
      `completed` was already shortened and the undo reports failure. */
  function UndoCompletion(students: seq<Student>, k: nat, subject: string): (r: (seq<Student>, bool))
    requires k < |students|
    ensures |r.0| == |students| && r.0[k].id == students[k].id && r.0[k].name == students[k].name
    ensures forall j :: 0 <= j < |students| && j != k ==> r.0[j] == students[j]
    ensures !r.1 <==> subject in students[k].completed
                      && |students[k].marks| <= FirstIndex(students[k].completed, subject).value
    ensures !r.1 ==> |students[k].marks| < |students[k].completed|
  {
    var st := students[k];
    if subject !in st.completed then (students, true)
    else
      var idx := FirstIndex(st.completed, subject).value;
      var completed := RemoveAt(st.completed, idx);
      if idx < |st.marks| then
        (students[k := st.(enrolled := st.enrolled + [subject],
                           completed := completed,
                           marks := RemoveAt(st.marks, idx))], true)
      else (students[k := st.(completed := completed)], false)
  }

  /** `undo_last_action`: pop the newest entry and apply its inverse.  An
      inverse that finds nothing to change still reports success.  With an
      empty stack it fails and changes nothing; otherwise exactly the newest
      entry is popped, and only the inverse of a completion can fail. */
  function Undo(s: Store): (r: Step)
    ensures s.history == [] ==> r == Step(s, false)
    ensures s.history != [] ==> r.store.history == s.history[..|s.history| - 1]
    ensures !r.ok ==> s.history == [] || s.history[|s.history| - 1].Completed?
  {
    if s.history == [] then Step(s, false)
    else
      var h := s.history[..|s.history| - 1];
      var ss := s.students;
      match s.history[|s.history| - 1]
      case Added(id) =>
        (match IndexOf(ss, id)
         case None => Step(Store(ss, h), true)
         case Some(k) => Step(Store(RemoveAt(ss, k), h), true))
      case Removed(snapshot) =>
        Step(Store(ss + [snapshot], h), true)
      case Enrolled(id, subject) =>
        (match IndexOf(ss, id)
         case Some(k) =>
           if subject in ss[k].enrolled then
             Step(Store(ss[k := ss[k].(enrolled := RemoveFirst(ss[k].enrolled, subject))], h), true)
           else Step(Store(ss, h), true)
         case None => Step(Store(ss, h), true))
      case Completed(id, subject, _) =>
        (match IndexOf(ss, id)
         case Some(k) =>
           var (ss', ok) := UndoCompletion(ss, k, subject);
           Step(Store(ss', h), ok)
         case None => Step(Store(ss, h), true))
  }
}
