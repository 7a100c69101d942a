/**
 * What `get_statistics` reports, defined independently of the loops that
 * compute it, with the lemmas that say what the numbers mean.
 */
module Statistics {
  import opened Records

  /** The dictionary `get_statistics` returns: `total_students`,
      `subjects_enrollment_count` and `students_by_completed_count`. */
  datatype Report = Report(
    totalStudents: nat,
    enrollmentCount: map<string, nat>,
    completedByName: map<string, nat>)

  /** How often `x` occurs in `xs`. */
  function Occurrences<T(==)>(x: T, xs: seq<T>): nat {
    if xs == [] then 0
    else Occurrences(x, xs[..|xs| - 1]) + (if xs[|xs| - 1] == x then 1 else 0)
  }

  /** How often `subject` occurs across the enrolled lists of `students`:
      what the first loop of `get_statistics` adds up.  Every student
      enrolled in the subject adds at least one. */
  function EnrolledTally(subject: string, students: seq<Student>): (r: nat)
    ensures r >= StudentsEnrolledIn(subject, students)
  {
    if students == [] then 0
    else
      var last := students[|students| - 1];
      OccurrencesPositive(subject, last.enrolled);
      EnrolledTally(subject, students[..|students| - 1]) + Occurrences(subject, last.enrolled)
  }

  /** The number of students enrolled in `subject`. */
  function StudentsEnrolledIn(subject: string, students: seq<Student>): nat {
    if students == [] then 0
    else StudentsEnrolledIn(subject, students[..|students| - 1])
         + (if subject in students[|students| - 1].enrolled then 1 else 0)
  }

  /** The key under which a student's completed count is reported. */
  function DisplayName(st: Student): string {
    st.name + " (" + st.id + ")"
  }

  /** `students_by_completed_count`: later students overwrite earlier ones
      that share their display name, so there is at most one entry per
      student. */
  function CompletedByName(students: seq<Student>): (r: map<string, nat>)
    ensures |r| <= |students|
  {
    if students == [] then map[]
    else
      var last := students[|students| - 1];
      CompletedByName(students[..|students| - 1])[DisplayName(last) := |last.completed|]
  }

  lemma {:induction false} OccurrencesPositive<T>(x: T, xs: seq<T>)
    ensures Occurrences(x, xs) > 0 <==> x in xs
    ensures NoDuplicates(xs) ==> Occurrences(x, xs) == if x in xs then 1 else 0
  {
    if xs != [] {
      var init := xs[..|xs| - 1];
      OccurrencesPositive(x, init);
      assert xs == init + [xs[|xs| - 1]];
      assert x in xs <==> x in init || x == xs[|xs| - 1];
      if NoDuplicates(xs) {
        assert NoDuplicates(init);
        assert xs[|xs| - 1] !in init;
      }
    }
  }

  /** A subject is counted exactly when some student is enrolled in it. */
  lemma {:induction false} TallyPositive(subject: string, students: seq<Student>)
    ensures EnrolledTally(subject, students) > 0
            <==> exists i :: 0 <= i < |students| && subject in students[i].enrolled
    decreases |students|
  {
    if students != [] {
      var n := |students|;
      var init := students[..n - 1];
      TallyPositive(subject, init);
      OccurrencesPositive(subject, students[n - 1].enrolled);
      if exists i :: 0 <= i < n && subject in students[i].enrolled {
        var i :| 0 <= i < n && subject in students[i].enrolled;
        if i < n - 1 { assert init[i] == students[i]; }
      }
      if exists i :: 0 <= i < n - 1 && subject in init[i].enrolled {
        var i :| 0 <= i < n - 1 && subject in init[i].enrolled;
        assert students[i] == init[i];
      }
    }
  }

  /** When no enrolled list repeats a subject, as the store guarantees,
      the count of a subject is the number of students enrolled in it. */
  lemma {:induction false} TallyCountsStudents(subject: string, students: seq<Student>)
    requires forall st :: st in students ==> NoDuplicates(st.enrolled)
    ensures EnrolledTally(subject, students) == StudentsEnrolledIn(subject, students)
    decreases |students|
  {
    if students != [] {
      var init := students[..|students| - 1];
      assert forall st :: st in init ==> st in students;
      TallyCountsStudents(subject, init);
      OccurrencesPositive(subject, students[|students| - 1].enrolled);
    }
  }

  /** Every student has an entry under its display name, and nothing else
      has one. */
  lemma {:induction false} CompletedByNameKeys(students: seq<Student>)
    ensures CompletedByName(students).Keys == set st | st in students :: DisplayName(st)
    decreases |students|
  {
    if students != [] {
      var init := students[..|students| - 1];
      CompletedByNameKeys(init);
      assert students == init + [students[|students| - 1]];
    }
  }

  /** The entry of the last student with a given display name holds that
      student's number of completed subjects. */
  lemma {:induction false} CompletedByNameValue(students: seq<Student>, i: nat)
    requires i < |students|
    requires forall j :: i < j < |students| ==> DisplayName(students[j]) != DisplayName(students[i])
    ensures DisplayName(students[i]) in CompletedByName(students)
    ensures CompletedByName(students)[DisplayName(students[i])] == |students[i].completed|
    decreases |students|
  {
    if i < |students| - 1 {
      var init := students[..|students| - 1];
      CompletedByNameValue(init, i);
    }
  }
}
