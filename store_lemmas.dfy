/**
 * What the store's operations guarantee: identifiers stay unique under any
 * sequence of operations and undos, every record keeps its shape (no
 * duplicate subjects, a subject never both enrolled and completed, one mark
 * per completed subject), the undo stack stays bounded, and undoing an
 * operation right after it inverts it.
 */
module StoreLemmas {
  import opened Records
  import opened StoreSpec

  // ---------------------------------------------------------------------------
  // Identifiers
  // ---------------------------------------------------------------------------

  function Ids(students: seq<Student>): set<string> {
    set st | st in students :: st.id
  }

  predicate UniqueIds(students: seq<Student>) {
    forall i, j :: 0 <= i < j < |students| ==> students[i].id != students[j].id
  }

  lemma IndexOfFinds(students: seq<Student>, id: string)
    ensures IndexOf(students, id).Some? <==> id in Ids(students)
  {
    if id in Ids(students) {
      var st :| st in students && st.id == id;
      var j :| 0 <= j < |students| && students[j] == st;
    }
  }

  /** Two collections with the same ids at the same positions answer every
      search at the same position. */
  lemma IndexOfSameIds(a: seq<Student>, b: seq<Student>, id: string)
    requires |a| == |b| && forall i :: 0 <= i < |a| ==> a[i].id == b[i].id
    ensures IndexOf(a, id) == IndexOf(b, id)
  {
  }

  /** A record appended under a new id is found at the end. */
  lemma IndexOfAppended(students: seq<Student>, st: Student)
    requires IndexOf(students, st.id).None?
    ensures IndexOf(students + [st], st.id) == Some(|students|)
  {
    var r := students + [st];
    assert r[|students|] == st;
    assert forall j :: 0 <= j < |students| ==> r[j] == students[j];
  }

  lemma AppendIds(students: seq<Student>, st: Student)
    requires UniqueIds(students) && st.id !in Ids(students)
    ensures UniqueIds(students + [st])
    ensures Ids(students + [st]) == Ids(students) + {st.id}
  {
    var r := students + [st];
    forall i, j | 0 <= i < j < |r|
      ensures r[i].id != r[j].id
    {
      if j == |students| {
        assert r[i] in students;
      }
    }
  }

  lemma RemoveAtIds(students: seq<Student>, k: nat)
    requires UniqueIds(students) && k < |students|
    ensures UniqueIds(RemoveAt(students, k))
    ensures Ids(RemoveAt(students, k)) == Ids(students) - {students[k].id}
  {
    RemoveAtKeepsUnique(students, k);
    RemoveAtIdSet(students, k);
  }

  lemma RemoveAtKeepsUnique(students: seq<Student>, k: nat)
    requires UniqueIds(students) && k < |students|
    ensures UniqueIds(RemoveAt(students, k))
  {
    var r := RemoveAt(students, k);
    forall i, j | 0 <= i < j < |r|
      ensures r[i].id != r[j].id
    {
      var i' := if i < k then i else i + 1;
      var j' := if j < k then j else j + 1;
      assert r[i] == students[i'] && r[j] == students[j'];
    }
  }

  lemma RemoveAtIdSet(students: seq<Student>, k: nat)
    requires UniqueIds(students) && k < |students|
    ensures Ids(RemoveAt(students, k)) == Ids(students) - {students[k].id}
  {
    var r := RemoveAt(students, k);
    forall id | id in Ids(r)
      ensures id in Ids(students) && id != students[k].id
    {
      var st :| st in r && st.id == id;
      var i :| 0 <= i < |r| && r[i] == st;
      var i' := if i < k then i else i + 1;
      assert students[i'] == st;
    }
    forall id | id in Ids(students) && id != students[k].id
      ensures id in Ids(r)
    {
      var st :| st in students && st.id == id;
      var i :| 0 <= i < |students| && students[i] == st;
      var i' := if i < k then i else i - 1;
      assert r[i'] == st;
    }
  }

  lemma UpdateIds(students: seq<Student>, k: nat, st: Student)
    requires k < |students| && st.id == students[k].id
    ensures Ids(students[k := st]) == Ids(students)
    ensures UniqueIds(students) ==> UniqueIds(students[k := st])
  {
    var r := students[k := st];
    forall id
      ensures id in Ids(r) <==> id in Ids(students)
    {
      if id in Ids(r) {
        var x :| x in r && x.id == id;
        var i :| 0 <= i < |r| && r[i] == x;
        assert students[i].id == id;
      }
      if id in Ids(students) {
        var x :| x in students && x.id == id;
        var i :| 0 <= i < |students| && students[i] == x;
        assert r[i].id == id;
      }
    }
  }

  /** `add_student` succeeds exactly when no student has the id; a search
      right after it finds the record that was added. */
  lemma AddThenSearch(s: Store, st: Student)
    ensures Add(s, st).ok <==> st.id !in Ids(s.students)
    ensures Add(s, st).ok ==> Search(Add(s, st).store.students, st.id) == Some(st)
  {
    IndexOfFinds(s.students, st.id);
    if Add(s, st).ok {
      IndexOfAppended(s.students, st);
    }
  }

  // ---------------------------------------------------------------------------
  // Ids stay unique through undo
  // ---------------------------------------------------------------------------

  /** Undoing the entries of `history`, newest first, starting from a
      collection with the identifiers `ids`, never meets an add whose id is
      missing or a removal whose id is present. */
  predicate Replayable(ids: set<string>, history: seq<Action>)
    decreases |history|
  {
    if history == [] then true
    else
      var h := history[..|history| - 1];
      match history[|history| - 1]
      case Added(id) => id in ids && Replayable(ids - {id}, h)
      case Removed(snapshot) => snapshot.id !in ids && Replayable(ids + {snapshot.id}, h)
      case Enrolled(_, _) => Replayable(ids, h)
      case Completed(_, _, _) => Replayable(ids, h)
  }

  /** The invariant that keeps identifiers unique: they are unique now, and
      they stay unique however many entries are undone. */
  predicate IdsConsistent(s: Store) {
    UniqueIds(s.students) && Replayable(Ids(s.students), s.history)
  }

  /** Forgetting the oldest entry keeps the stack replayable: the replay
      simply stops one step earlier. */
  lemma {:induction false} ReplayableDropOldest(ids: set<string>, history: seq<Action>)
    requires history != [] && Replayable(ids, history)
    ensures Replayable(ids, history[1..])
    decreases |history|
  {
    if |history| > 1 {
      var h := history[..|history| - 1];
      var a := history[|history| - 1];
      assert history[1..][..|history| - 2] == h[1..];
      assert history[1..][|history| - 2] == a;
      match a
      case Added(id) => ReplayableDropOldest(ids - {id}, h);
      case Removed(snapshot) => ReplayableDropOldest(ids + {snapshot.id}, h);
      case Enrolled(_, _) => ReplayableDropOldest(ids, h);
      case Completed(_, _, _) => ReplayableDropOldest(ids, h);
    }
  }

  lemma ReplayablePush(ids: set<string>, history: seq<Action>, a: Action)
    requires Replayable(ids, history + [a])
    ensures Replayable(ids, Push(history, a))
  {
    if |history + [a]| > MaxHistory {
      ReplayableDropOldest(ids, history + [a]);
    }
  }

  lemma AddKeepsIdsUnique(s: Store, st: Student)
    requires IdsConsistent(s)
    ensures IdsConsistent(Add(s, st).store)
  {
    IndexOfFinds(s.students, st.id);
    if Add(s, st).ok {
      var ss := s.students + [st];
      AppendIds(s.students, st);
      assert (s.history + [Added(st.id)])[..|s.history|] == s.history;
      assert Ids(ss) - {st.id} == Ids(s.students);
      ReplayablePush(Ids(ss), s.history, Added(st.id));
    }
  }

  lemma RemoveKeepsIdsUnique(s: Store, id: string)
    requires IdsConsistent(s)
    ensures IdsConsistent(Remove(s, id).store)
  {
    match IndexOf(s.students, id)
    case None =>
    case Some(k) =>
      var snapshot := s.students[k];
      var ss := RemoveAt(s.students, k);
      RemoveAtIds(s.students, k);
      IndexOfFinds(s.students, id);
      assert (s.history + [Removed(snapshot)])[..|s.history|] == s.history;
      assert Ids(ss) + {id} == Ids(s.students);
      ReplayablePush(Ids(ss), s.history, Removed(snapshot));
  }

  lemma EnrollKeepsIdsUnique(s: Store, id: string, subject: string)
    requires IdsConsistent(s)
    ensures IdsConsistent(Enroll(s, id, subject).store)
  {
    if Enroll(s, id, subject).ok {
      var k := IndexOf(s.students, id).value;
      var st := s.students[k];
      UpdateIds(s.students, k, st.(enrolled := st.enrolled + [subject]));
      assert (s.history + [Enrolled(id, subject)])[..|s.history|] == s.history;
      ReplayablePush(Ids(s.students), s.history, Enrolled(id, subject));
    }
  }

  lemma CompleteKeepsIdsUnique(s: Store, id: string, subject: string, mark: int)
    requires IdsConsistent(s)
    ensures IdsConsistent(Complete(s, id, subject, mark).store)
  {
    if Complete(s, id, subject, mark).ok {
      var k := IndexOf(s.students, id).value;
      var st := s.students[k];
      UpdateIds(s.students, k, st.(enrolled := RemoveFirst(st.enrolled, subject),
                                   completed := st.completed + [subject],
                                   marks := st.marks + [mark]));
      assert (s.history + [Completed(id, subject, mark)])[..|s.history|] == s.history;
      ReplayablePush(Ids(s.students), s.history, Completed(id, subject, mark));
    }
  }

  lemma UndoCompletionIds(students: seq<Student>, k: nat, subject: string)
    requires k < |students|
    ensures var ss := UndoCompletion(students, k, subject).0;
      Ids(ss) == Ids(students) && (UniqueIds(students) ==> UniqueIds(ss))
  {
    var st := students[k];
    if subject in st.completed {
      var idx := FirstIndex(st.completed, subject).value;
      var completed := RemoveAt(st.completed, idx);
      if idx < |st.marks| {
        UpdateIds(students, k, st.(enrolled := st.enrolled + [subject],
                                   completed := completed,
                                   marks := RemoveAt(st.marks, idx)));
      } else {
        UpdateIds(students, k, st.(completed := completed));
      }
    }
  }

  /** Undo never brings back a duplicate id: a re-inserted snapshot's id
      is absent, because every later add of that id was undone first. */
  lemma UndoKeepsIdsUnique(s: Store)
    requires IdsConsistent(s)
    ensures IdsConsistent(Undo(s).store)
  {
    if s.history != [] {
      var ss := s.students;
      match s.history[|s.history| - 1]
      case Added(id) =>
        IndexOfFinds(ss, id);
        var k := IndexOf(ss, id).value;
        RemoveAtIds(ss, k);
      case Removed(snapshot) =>
        AppendIds(ss, snapshot);
      case Enrolled(id, subject) =>
        var k := IndexOf(ss, id);
        if k.Some? && subject in ss[k.value].enrolled {
          UpdateIds(ss, k.value, ss[k.value].(enrolled := RemoveFirst(ss[k.value].enrolled, subject)));
        }
      case Completed(id, subject, _) =>
        var k := IndexOf(ss, id);
        if k.Some? {
          UndoCompletionIds(ss, k.value, subject);
        }
    }
  }

  // ---------------------------------------------------------------------------
  // Record shape
  // ---------------------------------------------------------------------------

  /** Every stored record, and every record kept for undoing a removal, is
      well formed. */
  predicate RecordsWellFormed(s: Store) {
    && (forall st :: st in s.students ==> WellFormed(st))
    && (forall a :: a in s.history && a.Removed? ==> WellFormed(a.snapshot))
  }

  lemma UpdateKeepsWellFormed(students: seq<Student>, k: nat, st: Student)
    requires k < |students| && WellFormed(st)
    requires forall x :: x in students ==> WellFormed(x)
    ensures forall x :: x in students[k := st] ==> WellFormed(x)
  {
    forall x | x in students[k := st]
      ensures WellFormed(x)
    {
      var i :| 0 <= i < |students| && students[k := st][i] == x;
      if i != k { assert x == students[i]; }
    }
  }

  lemma RemoveAtKeepsWellFormed(students: seq<Student>, k: nat)
    requires k < |students|
    requires forall x :: x in students ==> WellFormed(x)
    ensures forall x :: x in RemoveAt(students, k) ==> WellFormed(x)
  {
    assert forall x :: x in RemoveAt(students, k) ==> x in students;
  }

  lemma EnrolledRecordWellFormed(st: Student, subject: string)
    requires WellFormed(st) && subject !in st.enrolled && subject !in st.completed
    ensures WellFormed(st.(enrolled := st.enrolled + [subject]))
  {
  }

  lemma CompletedRecordWellFormed(st: Student, subject: string, mark: int)
    requires WellFormed(st) && subject in st.enrolled && 0 <= mark <= 100
    ensures WellFormed(st.(enrolled := RemoveFirst(st.enrolled, subject),
                           completed := st.completed + [subject],
                           marks := st.marks + [mark]))
  {
    RemoveFirstNoDuplicates(st.enrolled, subject);
  }

  lemma UnenrolledRecordWellFormed(st: Student, subject: string)
    requires WellFormed(st) && subject in st.enrolled
    ensures WellFormed(st.(enrolled := RemoveFirst(st.enrolled, subject)))
  {
    RemoveFirstNoDuplicates(st.enrolled, subject);
  }

  lemma UncompletedRecordWellFormed(st: Student, subject: string, idx: nat)
    requires WellFormed(st) && FirstIndex(st.completed, subject) == Some(idx)
    ensures idx < |st.marks|
    ensures WellFormed(st.(enrolled := st.enrolled + [subject],
                           completed := RemoveAt(st.completed, idx),
                           marks := RemoveAt(st.marks, idx)))
  {
    assert subject !in st.enrolled;
    AppendNoDuplicates(st.enrolled, subject);
    RemoveAtNoDuplicates(st.completed, idx);
    RemoveAtSubset(st.completed, idx);
    RemoveAtSubset(st.marks, idx);
  }

  lemma PushKeepsSnapshots(s: Store, a: Action)
    requires RecordsWellFormed(s)
    requires a.Removed? ==> WellFormed(a.snapshot)
    ensures forall x :: x in Push(s.history, a) && x.Removed? ==> WellFormed(x.snapshot)
  {
  }

  lemma AddKeepsWellFormed(s: Store, st: Student)
    requires RecordsWellFormed(s) && WellFormed(st)
    ensures RecordsWellFormed(Add(s, st).store)
  {
    PushKeepsSnapshots(s, Added(st.id));
  }

  lemma RemoveKeepsWellFormed(s: Store, id: string)
    requires RecordsWellFormed(s)
    ensures RecordsWellFormed(Remove(s, id).store)
  {
    match IndexOf(s.students, id)
    case None =>
    case Some(k) =>
      RemoveAtKeepsWellFormed(s.students, k);
      PushKeepsSnapshots(s, Removed(s.students[k]));
  }

  lemma EnrollKeepsWellFormed(s: Store, id: string, subject: string)
    requires RecordsWellFormed(s)
    ensures RecordsWellFormed(Enroll(s, id, subject).store)
  {
    if Enroll(s, id, subject).ok {
      var k := IndexOf(s.students, id).value;
      var st := s.students[k];
      EnrolledRecordWellFormed(st, subject);
      UpdateKeepsWellFormed(s.students, k, st.(enrolled := st.enrolled + [subject]));
      PushKeepsSnapshots(s, Enrolled(id, subject));
    }
  }

  lemma CompleteKeepsWellFormed(s: Store, id: string, subject: string, mark: int)
    requires RecordsWellFormed(s)
    ensures RecordsWellFormed(Complete(s, id, subject, mark).store)
  {
    if Complete(s, id, subject, mark).ok {
      var k := IndexOf(s.students, id).value;
      var st := s.students[k];
      CompletedRecordWellFormed(st, subject, mark);
      UpdateKeepsWellFormed(s.students, k, st.(enrolled := RemoveFirst(st.enrolled, subject),
                                               completed := st.completed + [subject],
                                               marks := st.marks + [mark]));
      PushKeepsSnapshots(s, Completed(id, subject, mark));
    }
  }

  /** On well-formed records, undoing a completion always gets through
      and keeps the record well formed. */
  lemma UndoCompletionWellFormed(students: seq<Student>, k: nat, subject: string)
    requires k < |students|
    requires forall x :: x in students ==> WellFormed(x)
    ensures UndoCompletion(students, k, subject).1
    ensures forall x :: x in UndoCompletion(students, k, subject).0 ==> WellFormed(x)
  {
    var st := students[k];
    if subject in st.completed {
      var idx := FirstIndex(st.completed, subject).value;
      UncompletedRecordWellFormed(st, subject, idx);
      UpdateKeepsWellFormed(students, k, st.(enrolled := st.enrolled + [subject],
                                             completed := RemoveAt(st.completed, idx),
                                             marks := RemoveAt(st.marks, idx)));
    }
  }

  /** Undo keeps every record well formed, and on well-formed records an
      undo with something to undo always returns true. */
  lemma UndoKeepsWellFormed(s: Store)
    requires RecordsWellFormed(s)
    ensures RecordsWellFormed(Undo(s).store)
    ensures s.history != [] ==> Undo(s).ok
  {
    if s.history != [] {
      var ss := s.students;
      var h := s.history[..|s.history| - 1];
      assert forall a :: a in h ==> a in s.history;
      match s.history[|s.history| - 1]
      case Added(id) =>
        var k := IndexOf(ss, id);
        if k.Some? {
          RemoveAtKeepsWellFormed(ss, k.value);
        }
      case Removed(snapshot) =>
        assert snapshot in [snapshot];
      case Enrolled(id, subject) =>
        var k := IndexOf(ss, id);
        if k.Some? && subject in ss[k.value].enrolled {
          UnenrolledRecordWellFormed(ss[k.value], subject);
          UpdateKeepsWellFormed(ss, k.value, ss[k.value].(enrolled := RemoveFirst(ss[k.value].enrolled, subject)));
        }
      case Completed(id, subject, _) =>
        var k := IndexOf(ss, id);
        if k.Some? {
          UndoCompletionWellFormed(ss, k.value, subject);
        }
    }
  }

  // ---------------------------------------------------------------------------
  // The undo stack
  // ---------------------------------------------------------------------------

  /** What is left of the stack after a push and an undo: the stack as it
      was, less its oldest entry if the push evicted it. */
  function AfterPushPop(history: seq<Action>): seq<Action>
    requires |history| <= MaxHistory
  {
    if |history| < MaxHistory then history else history[1..]
  }

  lemma PushThenPop(history: seq<Action>, a: Action)
    requires |history| <= MaxHistory
    ensures Push(history, a)[..|Push(history, a)| - 1] == AfterPushPop(history)
  {
  }

  /** The stack after `_save_state` was called with each of `actions`, in
      order. */
  function PushAll(history: seq<Action>, actions: seq<Action>): seq<Action>
    decreases |actions|
  {
    if actions == [] then history else PushAll(Push(history, actions[0]), actions[1..])
  }

  /** The last `MaxHistory` entries of `xs` (all of them when there are
      fewer). */
  function Newest(xs: seq<Action>): (r: seq<Action>)
    ensures |r| <= MaxHistory && |r| <= |xs|
    ensures r == xs[|xs| - |r|..]
  {
    if |xs| <= MaxHistory then xs else xs[|xs| - MaxHistory..]
  }

  lemma NewestOfNewest(xs: seq<Action>, ys: seq<Action>)
    ensures Newest(Newest(xs) + ys) == Newest(xs + ys)
  {
    var n := Newest(xs);
    if |xs| > MaxHistory {
      var d := |xs| - MaxHistory;
      assert xs + ys == xs[..d] + (n + ys);
      if |n + ys| > MaxHistory {
        assert (xs + ys)[|xs + ys| - MaxHistory..] == (n + ys)[|n + ys| - MaxHistory..];
      }
    }
  }

  /** However many entries are pushed, the stack holds exactly the ten
      newest, oldest first: after eleven pushes onto an empty stack the
      first one can no longer be undone. */
  lemma {:induction false} PushAllKeepsNewest(history: seq<Action>, actions: seq<Action>)
    requires |history| <= MaxHistory
    ensures PushAll(history, actions) == Newest(history + actions)
    decreases |actions|
  {
    if actions == [] {
      assert history + actions == history;
    } else {
      var a, rest := actions[0], actions[1..];
      var h := Push(history, a);
      calc {
        PushAll(history, actions);
        PushAll(h, rest);
        { PushAllKeepsNewest(h, rest); }
        Newest(h + rest);
        { PushIsNewest(history, a); }
        Newest(Newest(history + [a]) + rest);
        { NewestOfNewest(history + [a], rest); }
        Newest(history + [a] + rest);
        { assert history + [a] + rest == history + actions; }
        Newest(history + actions);
      }
    }
  }

  lemma PushIsNewest(history: seq<Action>, a: Action)
    requires |history| <= MaxHistory
    ensures Push(history, a) == Newest(history + [a])
  {
  }

  // ---------------------------------------------------------------------------
  // Undo right after an operation inverts it
  // ---------------------------------------------------------------------------

  /** Add then undo: the collection is as before. */
  lemma AddThenUndo(s: Store, st: Student)
    requires |s.history| <= MaxHistory && Add(s, st).ok
    ensures Undo(Add(s, st).store).ok
    ensures Undo(Add(s, st).store).store == Store(s.students, AfterPushPop(s.history))
  {
    var ss := s.students + [st];
    IndexOfAppended(s.students, st);
    assert RemoveAt(ss, |s.students|) == s.students;
    PushThenPop(s.history, Added(st.id));
  }

  /** Remove then undo: the same records come back, the removed one now at
      the end of the collection rather than at its old position. */
  lemma RemoveThenUndo(s: Store, id: string)
    requires |s.history| <= MaxHistory && Remove(s, id).ok
    ensures var k := IndexOf(s.students, id).value;
      && Undo(Remove(s, id).store).ok
      && Undo(Remove(s, id).store).store
         == Store(RemoveAt(s.students, k) + [s.students[k]], AfterPushPop(s.history))
      && multiset(Undo(Remove(s, id).store).store.students) == multiset(s.students)
  {
    var k := IndexOf(s.students, id).value;
    PushThenPop(s.history, Removed(s.students[k]));
    assert s.students == s.students[..k] + [s.students[k]] + s.students[k + 1..];
  }

  /** Enrol then undo: the subject lists are exactly as before. */
  lemma EnrollThenUndo(s: Store, id: string, subject: string)
    requires |s.history| <= MaxHistory && Enroll(s, id, subject).ok
    ensures Undo(Enroll(s, id, subject).store).ok
    ensures Undo(Enroll(s, id, subject).store).store == Store(s.students, AfterPushPop(s.history))
  {
    var k := IndexOf(s.students, id).value;
    var st := s.students[k];
    var ss := s.students[k := st.(enrolled := st.enrolled + [subject])];
    IndexOfSameIds(s.students, ss, id);
    RemoveFirstOfAppended(st.enrolled, subject);
    assert ss[k := ss[k].(enrolled := st.enrolled)] == s.students;
    PushThenPop(s.history, Enrolled(id, subject));
  }

  /** Complete then undo: `completed` and `marks` are exactly as before and
      the subject is enrolled again, now at the end of `enrolled`.  This
      needs the record to have had the subject not yet completed and one
      mark per completed subject, as every well-formed record has. */
  lemma CompleteThenUndo(s: Store, id: string, subject: string, mark: int)
    requires |s.history| <= MaxHistory && Complete(s, id, subject, mark).ok
    requires var st := s.students[IndexOf(s.students, id).value];
      subject !in st.completed && |st.completed| == |st.marks|
    ensures var k := IndexOf(s.students, id).value;
      var st := s.students[k];
      && Undo(Complete(s, id, subject, mark).store).ok
      && Undo(Complete(s, id, subject, mark).store).store
         == Store(s.students[k := st.(enrolled := RemoveFirst(st.enrolled, subject) + [subject])],
                  AfterPushPop(s.history))
  {
    var k := IndexOf(s.students, id).value;
    var st := s.students[k];
    var ss := s.students[k := st.(enrolled := RemoveFirst(st.enrolled, subject),
                                  completed := st.completed + [subject],
                                  marks := st.marks + [mark])];
    IndexOfSameIds(s.students, ss, id);
    UndoCompletionAfterComplete(s.students, k, subject, mark);
    PushThenPop(s.history, Completed(id, subject, mark));
  }

  /** The record-level half of `CompleteThenUndo`. */
  lemma UndoCompletionAfterComplete(students: seq<Student>, k: nat, subject: string, mark: int)
    requires k < |students| && subject in students[k].enrolled
    requires subject !in students[k].completed && |students[k].completed| == |students[k].marks|
    ensures var st := students[k];
      var ss := students[k := st.(enrolled := RemoveFirst(st.enrolled, subject),
                                  completed := st.completed + [subject],
                                  marks := st.marks + [mark])];
      UndoCompletion(ss, k, subject)
      == (students[k := st.(enrolled := RemoveFirst(st.enrolled, subject) + [subject])], true)
  {
    var st := students[k];
    var st' := st.(enrolled := RemoveFirst(st.enrolled, subject),
                   completed := st.completed + [subject],
                   marks := st.marks + [mark]);
    var ss := students[k := st'];
    assert ss[k] == st';
    FirstIndexOfAppended(st.completed, subject);
    assert RemoveAt(st'.completed, |st.completed|) == st.completed;
    assert RemoveAt(st'.marks, |st.completed|) == st.marks;
    assert st'.(enrolled := st'.enrolled + [subject], completed := st.completed, marks := st.marks)
        == st.(enrolled := RemoveFirst(st.enrolled, subject) + [subject]);
    assert ss[k := st.(enrolled := RemoveFirst(st.enrolled, subject) + [subject])]
        == students[k := st.(enrolled := RemoveFirst(st.enrolled, subject) + [subject])];
  }

  /** Complete then undo on a record with fewer marks than completed
      subjects (which `load_data` accepts): the undo pops its entry and
      reports failure; `completed` is as before, but the new mark stays and
      the subject is not enrolled again, because `pop` raised on `marks`
      after `completed` was already shortened. */
  lemma CompleteThenUndoMissingMark(s: Store, id: string, subject: string, mark: int)
    requires |s.history| <= MaxHistory && Complete(s, id, subject, mark).ok
    requires var st := s.students[IndexOf(s.students, id).value];
      subject !in st.completed && |st.marks| < |st.completed|
    ensures var k := IndexOf(s.students, id).value;
      var st := s.students[k];
      && !Undo(Complete(s, id, subject, mark).store).ok
      && Undo(Complete(s, id, subject, mark).store).store
         == Store(s.students[k := st.(enrolled := RemoveFirst(st.enrolled, subject),
                                      marks := st.marks + [mark])],
                  AfterPushPop(s.history))
  {
    var k := IndexOf(s.students, id).value;
    var st := s.students[k];
    var st' := st.(enrolled := RemoveFirst(st.enrolled, subject),
                   completed := st.completed + [subject],
                   marks := st.marks + [mark]);
    var ss := s.students[k := st'];
    IndexOfSameIds(s.students, ss, id);
    FirstIndexOfAppended(st.completed, subject);
    assert RemoveAt(st'.completed, |st.completed|) == st.completed;
    assert ss[k := st'.(completed := st.completed)]
        == s.students[k := st.(enrolled := RemoveFirst(st.enrolled, subject), marks := st.marks + [mark])];
    PushThenPop(s.history, Completed(id, subject, mark));
  }

  /** One instance of `CompleteThenUndoMissingMark`, on a store holding
      only Ann: after the undo `completed` loses the subject, the mark
      stays, the subject is not enrolled again, and the undo reports
      failure after its entry was already popped. */
  lemma UndoCompletionWithMissingMark()
    ensures var before := Student("S1", "Ann", ["B"], ["A"], []);
      var s := Store([before], []);
      var done := Complete(s, "S1", "B", 70);
      && done.ok
      && done.store.students == [Student("S1", "Ann", [], ["A", "B"], [70])]
      && Undo(done.store) == Step(Store([Student("S1", "Ann", [], ["A"], [70])], []), false)
  {
    var before := Student("S1", "Ann", ["B"], ["A"], []);
    var s := Store([before], []);
    assert IndexOf(s.students, "S1") == Some(0);
    assert FirstIndex(before.enrolled, "B") == Some(0);
    assert RemoveFirst(before.enrolled, "B") == [];
    var after := Student("S1", "Ann", [], ["A", "B"], [70]);
    assert ["A"] + ["B"] == ["A", "B"];
    assert before.(enrolled := [], completed := ["A"] + ["B"], marks := [] + [70]) == after;
    assert Push([], Completed("S1", "B", 70)) == [Completed("S1", "B", 70)];
    var done := Complete(s, "S1", "B", 70);
    assert done.store == Store([after], [Completed("S1", "B", 70)]);
    assert IndexOf([after], "S1") == Some(0);
    assert FirstIndex(after.completed, "B") == Some(1);
    assert RemoveAt(after.completed, 1) == ["A"];
    assert "B" in after.completed;
    assert [after][0 := after.(completed := ["A"])] == [Student("S1", "Ann", [], ["A"], [70])];
    assert UndoCompletion([after], 0, "B") == ([Student("S1", "Ann", [], ["A"], [70])], false);
  }
}
