/**
 * Any sequence of calls the user interface can make, and the invariants
 * that hold after all of them.
 */
module Sessions {
  import opened Records
  import opened StoreSpec
  import opened StoreLemmas

  /** One call into the store. */
  datatype Op =
    | AddOp(student: Student)
    | RemoveOp(id: string)
    | EnrollOp(id: string, subject: string)
    | CompleteOp(id: string, subject: string, mark: int)
    | UndoOp

  /** One call: a refused call other than undo changes nothing, no call
      adds more than one record, and the stack stays within its cap. */
  function Apply(s: Store, op: Op): (r: Step)
    ensures !op.UndoOp? && !r.ok ==> r.store == s
    ensures |r.store.students| <= |s.students| + 1
    ensures |s.history| <= MaxHistory ==> |r.store.history| <= MaxHistory
  {
    match op
    case AddOp(st) => Add(s, st)
    case RemoveOp(id) => Remove(s, id)
    case EnrollOp(id, subject) => Enroll(s, id, subject)
    case CompleteOp(id, subject, mark) => Complete(s, id, subject, mark)
    case UndoOp => Undo(s)
  }

  /** The store after the calls `ops`, in order: at most one record more
      per call, and the stack never beyond its cap. */
  function Run(s: Store, ops: seq<Op>): (r: Store)
    ensures |r.students| <= |s.students| + |ops|
    ensures |s.history| <= MaxHistory ==> |r.history| <= MaxHistory
    decreases |ops|
  {
    if ops == [] then s else Run(Apply(s, ops[0]).store, ops[1..])
  }

  /** The invariants every call keeps. */
  predicate Invariant(s: Store) {
    IdsConsistent(s) && RecordsWellFormed(s) && |s.history| <= MaxHistory
  }

  lemma ApplyKeepsInvariant(s: Store, op: Op)
    requires Invariant(s)
    requires op.AddOp? ==> WellFormed(op.student)
    ensures Invariant(Apply(s, op).store)
  {
    match op
    case AddOp(st) =>
      AddKeepsIdsUnique(s, st);
      AddKeepsWellFormed(s, st);
    case RemoveOp(id) =>
      RemoveKeepsIdsUnique(s, id);
      RemoveKeepsWellFormed(s, id);
    case EnrollOp(id, subject) =>
      EnrollKeepsIdsUnique(s, id, subject);
      EnrollKeepsWellFormed(s, id, subject);
    case CompleteOp(id, subject, mark) =>
      CompleteKeepsIdsUnique(s, id, subject, mark);
      CompleteKeepsWellFormed(s, id, subject, mark);
    case UndoOp =>
      UndoKeepsIdsUnique(s);
      UndoKeepsWellFormed(s);
  }

  /** Whatever the user does, starting from a store that satisfies the
      invariant and adding only well-formed records: ids stay unique (also
      through undo), records stay well formed, the undo stack never holds
      more than ten entries. */
  lemma {:induction false} RunKeepsInvariant(s: Store, ops: seq<Op>)
    requires Invariant(s)
    requires forall op :: op in ops && op.AddOp? ==> WellFormed(op.student)
    ensures Invariant(Run(s, ops))
    ensures UniqueIds(Run(s, ops).students)
    ensures |Run(s, ops).history| <= MaxHistory
    decreases |ops|
  {
    if ops != [] {
      ApplyKeepsInvariant(s, ops[0]);
      assert forall op :: op in ops[1..] ==> op in ops;
      RunKeepsInvariant(Apply(s, ops[0]).store, ops[1..]);
    }
  }

  /** A freshly loaded store satisfies the invariant when the loaded
      records have distinct ids and are well formed. */
  lemma FreshStoreInvariant(students: seq<Student>)
    requires UniqueIds(students)
    requires forall st :: st in students ==> WellFormed(st)
    ensures Invariant(Store(students, []))
  {
  }

  /** Why `Invariant` asks for a replayable stack: unique ids and
      well-formed records with a stack that removes a present id are not
      enough, since one undo brings back a duplicate. */
  lemma UnreplayableUndoDuplicates(st: Student)
    ensures UniqueIds([st])
    ensures !Replayable(Ids([st]), [Removed(st)])
    ensures Undo(Store([st], [Removed(st)])).store.students == [st, st]
    ensures !UniqueIds([st, st])
  {
    assert Ids([st]) == {st.id};
    assert [st, st][0].id == [st, st][1].id;
  }
}
