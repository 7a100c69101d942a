/**
 * Concrete runs of the store: an enrol, complete and undo sequence for
 * John Doe, and the assertions of the unit tests at the end of
 * student_manager.py, stated about the transition functions.  Each step is its own lemma
 * giving the exact state after it.
 */
module Scenarios {
  import opened Records
  import opened StoreSpec
  import opened Statistics

  // ---------------------------------------------------------------------------
  // Enrol, complete, undo
  // ---------------------------------------------------------------------------

  lemma AddToEmpty(st: Student)
    ensures Add(Store([], []), st) == Step(Store([st], [Added(st.id)]), true)
  {
    assert [] + [st] == [st];
  }

  lemma EnrollOnly(id: string, name: string, e: seq<string>, h: seq<Action>, c: string)
    requires |h| < MaxHistory && c !in e
    ensures Enroll(Store([Student(id, name, e, [], [])], h), id, c)
         == Step(Store([Student(id, name, e + [c], [], [])], h + [Enrolled(id, c)]), true)
  {
    assert IndexOf([Student(id, name, e, [], [])], id) == Some(0);
  }

  lemma CompleteOnly(id: string, name: string, e: seq<string>, h: seq<Action>, x: string, m: int)
    requires |h| < MaxHistory && x in e
    ensures Complete(Store([Student(id, name, e, [], [])], h), id, x, m)
         == if 0 <= m <= 100
            then Step(Store([Student(id, name, RemoveFirst(e, x), [x], [m])], h + [Completed(id, x, m)]), true)
            else Step(Store([Student(id, name, e, [], [])], h), false)
  {
    assert IndexOf([Student(id, name, e, [], [])], id) == Some(0);
    assert [] + [x] == [x] && [] + [m] == [m];
  }

  lemma UndoOnlyCompletion(id: string, name: string, e: seq<string>, h: seq<Action>, x: string, m: int)
    ensures Undo(Store([Student(id, name, e, [x], [m])], h + [Completed(id, x, m)]))
         == Step(Store([Student(id, name, e + [x], [], [])], h), true)
  {
    var st := Student(id, name, e, [x], [m]);
    assert IndexOf([st], id) == Some(0);
    assert FirstIndex(st.completed, x) == Some(0);
    assert RemoveAt(st.completed, 0) == [] && RemoveAt(st.marks, 0) == [];
    assert (h + [Completed(id, x, m)])[..|h|] == h;
  }

  /** The first two steps of the sequence below: add a student
      enrolled in `a` and `b`, then enrol in `c`. */
  lemma AddThenEnroll(id: string, name: string, a: string, b: string, c: string)
    requires c != a && c != b
    ensures Add(Store([], []), Student(id, name, [a, b], [], []))
         == Step(Store([Student(id, name, [a, b], [], [])], [Added(id)]), true)
    ensures Enroll(Store([Student(id, name, [a, b], [], [])], [Added(id)]), id, c)
         == Step(Store([Student(id, name, [a, b, c], [], [])], [Added(id), Enrolled(id, c)]), true)
  {
    AddToEmpty(Student(id, name, [a, b], [], []));
    assert [a, b] + [c] == [a, b, c];
    assert [Added(id)] + [Enrolled(id, c)] == [Added(id), Enrolled(id, c)];
    EnrollOnly(id, name, [a, b], [Added(id)], c);
  }

  /** Completing the first of three enrolled subjects, in range and out of
      range. */
  lemma CompleteFirstOfThree(id: string, name: string, a: string, b: string, c: string,
                             h: seq<Action>, m: int)
    requires a != b && a != c && |h| < MaxHistory && 0 <= m <= 100
    ensures Complete(Store([Student(id, name, [a, b, c], [], [])], h), id, a, m)
         == Step(Store([Student(id, name, [b, c], [a], [m])], h + [Completed(id, a, m)]), true)
    ensures Complete(Store([Student(id, name, [a, b, c], [], [])], h), id, a, 150)
         == Step(Store([Student(id, name, [a, b, c], [], [])], h), false)
  {
    RemoveFirstHead([a, b, c], a);
    assert [a, b, c][1..] == [b, c];
    CompleteOnly(id, name, [a, b, c], h, a, m);
    CompleteOnly(id, name, [a, b, c], h, a, 150);
  }

  /** Add a student enrolled in two subjects `a` and `b`, enrol in a third
      subject `c`, complete `a` with mark `m`, then undo: each call
      succeeds, after the completion `a` is in `completed` with its mark,
      and after the undo nothing is completed and `a` is enrolled again, at
      the end, with the undo stack as it was before the completion.  A mark
      out of range is refused without change. */
  lemma EnrollCompleteUndo(id: string, name: string, a: string, b: string, c: string, m: int)
    requires a != b && c != a && c != b && 0 <= m <= 100
    ensures var h2 := [Added(id), Enrolled(id, c)];
      var s2 := Store([Student(id, name, [a, b, c], [], [])], h2);
      var s3 := Store([Student(id, name, [b, c], [a], [m])], h2 + [Completed(id, a, m)]);
      && Add(Store([], []), Student(id, name, [a, b], [], []))
         == Step(Store([Student(id, name, [a, b], [], [])], [Added(id)]), true)
      && Enroll(Store([Student(id, name, [a, b], [], [])], [Added(id)]), id, c) == Step(s2, true)
      && Complete(s2, id, a, m) == Step(s3, true)
      && Undo(s3) == Step(Store([Student(id, name, [b, c, a], [], [])], h2), true)
      && Complete(s2, id, a, 150) == Step(s2, false)
  {
    var h2 := [Added(id), Enrolled(id, c)];
    AddThenEnroll(id, name, a, b, c);
    CompleteFirstOfThree(id, name, a, b, c, h2, m);
    assert [b, c] + [a] == [b, c, a];
    UndoOnlyCompletion(id, name, [b, c], h2, a, m);
  }

  /** An enrol, complete and undo sequence for John Doe, enrolled in
      COMP101 and MATH201: enrolling in ENG201, completing COMP101 with 92,
      then undoing leaves the record enrolled in MATH201, ENG201 and COMP101
      with nothing completed. */
  lemma JohnDoeEnrollCompleteUndo()
    ensures var john := Student("S001", "John Doe", ["COMP101", "MATH201"], [], []);
      var s1 := Add(Store([], []), john);
      var s2 := Enroll(s1.store, "S001", "ENG201");
      var s3 := Complete(s2.store, "S001", "COMP101", 92);
      var s4 := Undo(s3.store);
      && s1.ok && s2.ok && s3.ok && s4.ok
      && s3.store.students == [Student("S001", "John Doe", ["MATH201", "ENG201"], ["COMP101"], [92])]
      && s4.store.students == [Student("S001", "John Doe", ["MATH201", "ENG201", "COMP101"], [], [])]
      && Complete(s2.store, "S001", "COMP101", 150) == Step(s2.store, false)
  {
    EnrollCompleteUndo("S001", "John Doe", "COMP101", "MATH201", "ENG201", 92);
  }

  // ---------------------------------------------------------------------------
  // The unit tests
  // ---------------------------------------------------------------------------

  const Student1 := Student("S001", "John Doe", ["COMP101", "MATH201"], ["PHYS101"], [85])
  const Student2 := Student("S002", "Jane Smith", ["COMP101", "CHEM101"], [], [])
  const Student1Enrolled := Student("S001", "John Doe", ["COMP101", "MATH201", "ENG201"], ["PHYS101"], [85])
  const Student1Completed := Student("S001", "John Doe", ["MATH201", "ENG201"], ["PHYS101", "COMP101"], [85, 92])

  const History2 := [Added("S001"), Added("S002")]
  const History3 := History2 + [Enrolled("S001", "ENG201")]
  const History4 := History3 + [Completed("S001", "COMP101", 92)]

  /** Completing the first enrolled subject of the first student of the
      collection. */
  lemma CompleteHead(st: Student, rest: seq<Student>, h: seq<Action>, m: int)
    requires |h| < MaxHistory && |st.enrolled| > 0 && 0 <= m <= 100
    ensures var x := st.enrolled[0];
      Complete(Store([st] + rest, h), st.id, x, m)
      == Step(Store([Student(st.id, st.name, st.enrolled[1..], st.completed + [x], st.marks + [m])] + rest,
                    h + [Completed(st.id, x, m)]), true)
  {
    var x := st.enrolled[0];
    assert IndexOf([st] + rest, st.id) == Some(0);
    RemoveFirstHead(st.enrolled, x);
    var st' := Student(st.id, st.name, st.enrolled[1..], st.completed + [x], st.marks + [m]);
    assert ([st] + rest)[0 := st'] == [st'] + rest;
  }

  /** A subject the first student is not enrolled in cannot be completed. */
  lemma CompleteHeadRefused(st: Student, rest: seq<Student>, h: seq<Action>, x: string, m: int)
    requires x !in st.enrolled
    ensures Complete(Store([st] + rest, h), st.id, x, m) == Step(Store([st] + rest, h), false)
  {
    assert IndexOf([st] + rest, st.id) == Some(0);
  }

  lemma TestAdds()
    ensures Add(Store([], []), Student1) == Step(Store([Student1], [Added("S001")]), true)
    ensures Add(Store([Student1], [Added("S001")]), Student2)
         == Step(Store([Student1, Student2], History2), true)
    ensures !Add(Store([Student1, Student2], History2), Student1).ok
  {
    assert [] + [Student1] == [Student1];
    assert [Student1] + [Student2] == [Student1, Student2];
    assert IndexOf([Student1], "S002").None?;
    assert IndexOf([Student1, Student2], "S001") == Some(0);
  }

  lemma TestSearches()
    ensures Search([Student1, Student2], "S001") == Some(Student1)
    ensures Search([Student1, Student2], "S999") == None
  {
    assert IndexOf([Student1, Student2], "S001") == Some(0);
    assert IndexOf([Student1, Student2], "S999").None?;
  }

  lemma TestEnrolls()
    ensures Enroll(Store([Student1, Student2], History2), "S001", "ENG201")
         == Step(Store([Student1Enrolled, Student2], History3), true)
    ensures !Enroll(Store([Student1Enrolled, Student2], History3), "S001", "COMP101").ok
  {
    assert IndexOf([Student1, Student2], "S001") == Some(0);
    assert "ENG201" !in Student1.enrolled && "ENG201" !in Student1.completed;
    assert Student1.enrolled + ["ENG201"] == Student1Enrolled.enrolled;
    assert [Student1, Student2][0 := Student1Enrolled] == [Student1Enrolled, Student2];
    assert IndexOf([Student1Enrolled, Student2], "S001") == Some(0);
  }

  lemma TestCompletes()
    ensures Complete(Store([Student1Enrolled, Student2], History3), "S001", "COMP101", 92)
         == Step(Store([Student1Completed, Student2], History4), true)
  {
    assert [Student1Enrolled, Student2] == [Student1Enrolled] + [Student2];
    assert [Student1Completed, Student2] == [Student1Completed] + [Student2];
    assert Student1Enrolled.enrolled[1..] == Student1Completed.enrolled;
    assert Student1Enrolled.completed + ["COMP101"] == Student1Completed.completed;
    assert Student1Enrolled.marks + [92] == Student1Completed.marks;
    CompleteHead(Student1Enrolled, [Student2], History3, 92);
  }

  lemma TestCompletesOnce()
    ensures !Complete(Store([Student1Completed, Student2], History4), "S001", "COMP101", 92).ok
  {
    assert [Student1Completed, Student2] == [Student1Completed] + [Student2];
    CompleteHeadRefused(Student1Completed, [Student2], History4, "COMP101", 92);
  }

  lemma TestUndo()
    ensures Undo(Store([Student1Completed, Student2], History4)).ok
  {
    assert IndexOf([Student1Completed, Student2], "S001") == Some(0);
    assert FirstIndex(Student1Completed.completed, "COMP101") == Some(1);
  }

  /** The assertions of the unit tests: two adds succeed and a repeated id
      is refused; a search finds the first student and none for an unknown
      id; enrolling in a new subject succeeds and in a current one fails;
      completing an enrolled subject succeeds once; two students are
      counted; the last action can be undone. */
  lemma UnitTestRun()
    ensures var a1 := Add(Store([], []), Student1);
      var a2 := Add(a1.store, Student2);
      var a3 := Add(a2.store, Student1);
      var e1 := Enroll(a3.store, "S001", "ENG201");
      var e2 := Enroll(e1.store, "S001", "COMP101");
      var c1 := Complete(e2.store, "S001", "COMP101", 92);
      var c2 := Complete(c1.store, "S001", "COMP101", 92);
      var u := Undo(c2.store);
      && a1.ok && a2.ok && !a3.ok
      && Search(a3.store.students, "S001").Some?
      && Search(a3.store.students, "S001").value.name == "John Doe"
      && Search(a3.store.students, "S999").None?
      && e1.ok && !e2.ok
      && c1.ok && !c2.ok
      && |c2.store.students| == 2
      && u.ok
  {
    TestAdds();
    TestSearches();
    TestEnrolls();
    TestCompletes();
    TestCompletesOnce();
    TestUndo();
  }

  // ---------------------------------------------------------------------------
  // Statistics
  // ---------------------------------------------------------------------------

  /** Two students enrolled in COMP101 and MATH201, and in COMP101: the
      statistics count COMP101 twice and MATH201 once. */
  lemma EnrollmentCountExample()
    ensures var students := [Student("S001", "John Doe", ["COMP101", "MATH201"], [], []),
                             Student("S002", "Jane Smith", ["COMP101"], [], [])];
      && EnrolledTally("COMP101", students) == 2
      && EnrolledTally("MATH201", students) == 1
      && EnrolledTally("CHEM101", students) == 0
  {
    var students := [Student("S001", "John Doe", ["COMP101", "MATH201"], [], []),
                     Student("S002", "Jane Smith", ["COMP101"], [], [])];
    assert students[..1] == [students[0]];
    assert students[..1][..0] == [];
    assert ["COMP101", "MATH201"][..1] == ["COMP101"];
    assert ["COMP101"][..0] == [];
  }
}
