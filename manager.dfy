/**
 * `StudentManager`: the student collection and the undo stack as fields
 * updated in place.  Every method is proved to follow the transition
 * function of the same operation in StoreSpec.  Saving to disk after each
 * change is not modelled.
 */
module Manager {
  import opened Records
  import opened Text
  import opened Codec
  import opened Persistence
  import opened StoreSpec
  import opened Statistics
  import Sessions

  class StudentManager {
    var students: seq<Student>
    var history: seq<Action>

    /** The state as a value, for the transition functions. */
    function State(): Store
      reads this
    {
      Store(students, history)
    }

    ghost predicate Valid()
      reads this
    {
      |history| <= MaxHistory
    }

    /** `__init__` followed by `load_data`: the text of the data file (empty
        when the file does not exist yet) becomes the collection. */
    constructor (text: string)
      ensures Valid()
      ensures students == ParseLines(ReadLines(text)) && history == []
    {
      students := [];
      history := [];
      new;
      LoadData(text);
    }

    /** `load_data` on the file's text: `readlines`, then the loop. */
    method LoadData(text: string)
      modifies this
      ensures students == ParseLines(ReadLines(text))
      ensures history == old(history)
    {
      var lines := ReadLines(text);
      LoadLines(lines);
    }

    /** The loop of `load_data`: strip each line, skip it when blank or when
        `from_string` rejects it, otherwise append the record. */
    method LoadLines(lines: seq<string>)
      modifies this
      ensures students == ParseLines(lines)
      ensures history == old(history)
    {
      students := [];
      var i := 0;
      while i < |lines|
        invariant 0 <= i <= |lines|
        invariant students == ParseLines(lines[..i])
        invariant history == old(history)
      {
        ParseLinesPrefix(lines, i);
        LineRecordsCases(lines[i]);
        var line := Strip(lines[i]);
        if line != "" {
          match FromLine(line)
          case Ok(st) =>
            assert LineRecords(lines[i]) == [st];
            students := students + [st];
          case Err(_) =>
            assert LineRecords(lines[i]) == [];
        } else {
          assert LineRecords(lines[i]) == [];
        }
        assert students == ParseLines(lines[..i + 1]);
        i := i + 1;
      }
      assert lines[..|lines|] == lines;
    }

    /** The loop of `search_student`, returning the position it stops at. */
    method Locate(id: string) returns (k: Option<nat>)
      ensures k == IndexOf(students, id)
    {
      var i := 0;
      while i < |students|
        invariant 0 <= i <= |students|
        invariant forall j :: 0 <= j < i ==> students[j].id != id
      {
        if students[i].id == id {
          return Some(i);
        }
        i := i + 1;
      }
      return None;
    }

    /** `search_student`: the first student with this id, or none. */
    method SearchStudent(id: string) returns (r: Option<Student>)
      ensures r.None? <==> forall j :: 0 <= j < |students| ==> students[j].id != id
      ensures r.Some? ==> exists k :: 0 <= k < |students| && students[k] == r.value && r.value.id == id
                                      && forall j :: 0 <= j < k ==> students[j].id != id
      ensures r == Search(students, id)
    {
      var k := Locate(id);
      match k
      case None => r := None;
      case Some(i) => r := Some(students[i]);
    }

    /** `_save_state`: push an undo entry, dropping the oldest beyond ten. */
    method SaveState(a: Action)
      modifies this
      ensures history == Push(old(history), a)
      ensures students == old(students)
    {
      history := history + [a];
      if |history| > MaxHistory {
        history := history[1..];
      }
    }

    /** `add_student`. */
    method AddStudent(st: Student) returns (ok: bool)
      requires Valid()
      modifies this
      ensures Valid()
      ensures Step(State(), ok) == Add(old(State()), st)
      ensures ok <==> forall j :: 0 <= j < |old(students)| ==> old(students)[j].id != st.id
      ensures !ok ==> students == old(students) && history == old(history)
      ensures ok ==> students == old(students) + [st] && history == Push(old(history), Added(st.id))
      ensures Sessions.Invariant(old(State())) && WellFormed(st) ==> Sessions.Invariant(State())
    {
      ghost var before := State();
      var k := Locate(st.id);
      if k.Some? {
        return false;
      }
      SaveState(Added(st.id));
      students := students + [st];
      ok := true;
      if Sessions.Invariant(before) && WellFormed(st) {
        Sessions.ApplyKeepsInvariant(before, Sessions.AddOp(st));
      }
    }

    /** `remove_student`. */
    method RemoveStudent(id: string) returns (ok: bool)
      requires Valid()
      modifies this
      ensures Valid()
      ensures Step(State(), ok) == Remove(old(State()), id)
      ensures !ok ==> students == old(students) && history == old(history)
      ensures ok ==> exists k :: 0 <= k < |old(students)| && old(students)[k].id == id
                                 && students == old(students)[..k] + old(students)[k + 1..]
                                 && history == Push(old(history), Removed(old(students)[k]))
      ensures Sessions.Invariant(old(State())) ==> Sessions.Invariant(State())
    {
      ghost var before := State();
      var k := Locate(id);
      if k.None? {
        return false;
      }
      var i := k.value;
      SaveState(Removed(students[i]));
      students := RemoveAt(students, i);
      ok := true;
      if Sessions.Invariant(before) {
        Sessions.ApplyKeepsInvariant(before, Sessions.RemoveOp(id));
      }
    }

    /** `update_enrollment`. */
    method UpdateEnrollment(id: string, subject: string) returns (ok: bool)
      requires Valid()
      modifies this
      ensures Valid()
      ensures Step(State(), ok) == Enroll(old(State()), id, subject)
      ensures !ok ==> students == old(students) && history == old(history)
      ensures Sessions.Invariant(old(State())) ==> Sessions.Invariant(State())
    {
      ghost var before := State();
      var k := Locate(id);
      if k.None? {
        return false;
      }
      var i := k.value;
      var st := students[i];
      if subject in st.enrolled {
        return false;
      }
      if subject in st.completed {
        return false;
      }
      SaveState(Enrolled(id, subject));
      students := students[i := st.(enrolled := st.enrolled + [subject])];
      ok := true;
      if Sessions.Invariant(before) {
        Sessions.ApplyKeepsInvariant(before, Sessions.EnrollOp(id, subject));
      }
    }

    /** `mark_subject_completed`. */
    method MarkSubjectCompleted(id: string, subject: string, mark: int) returns (ok: bool)
      requires Valid()
      modifies this
      ensures Valid()
      ensures Step(State(), ok) == Complete(old(State()), id, subject, mark)
      ensures !ok ==> students == old(students) && history == old(history)
      ensures ok ==> 0 <= mark <= 100
      ensures Sessions.Invariant(old(State())) ==> Sessions.Invariant(State())
    {
      ghost var before := State();
      var k := Locate(id);
      if k.None? {
        return false;
      }
      var i := k.value;
      var st := students[i];
      if subject !in st.enrolled {
        return false;
      }
      if !(0 <= mark <= 100) {
        return false;
      }
      SaveState(Completed(id, subject, mark));
      students := students[i := st.(enrolled := RemoveFirst(st.enrolled, subject),
                                    completed := st.completed + [subject],
                                    marks := st.marks + [mark])];
      ok := true;
      if Sessions.Invariant(before) {
        Sessions.ApplyKeepsInvariant(before, Sessions.CompleteOp(id, subject, mark));
      }
    }

    /** `list_all_students`: the collection itself, in insertion order. */
    method ListAllStudents() returns (r: seq<Student>)
      ensures r == students
    {
      r := students;
    }

    /** The first loop of `get_statistics`: how many times each subject
        occurs across the enrolled lists. */
    method TallyEnrollments() returns (counts: map<string, nat>)
      ensures forall subject :: subject in counts <==> EnrolledTally(subject, students) > 0
      ensures forall subject :: subject in counts ==> counts[subject] == EnrolledTally(subject, students)
    {
      counts := map[];
      var i := 0;
      while i < |students|
        invariant 0 <= i <= |students|
        invariant forall subject :: subject in counts <==> EnrolledTally(subject, students[..i]) > 0
        invariant forall subject :: subject in counts ==> counts[subject] == EnrolledTally(subject, students[..i])
      {
        var subjects := students[i].enrolled;
        assert students[..i + 1][..i] == students[..i];
        var j := 0;
        while j < |subjects|
          invariant 0 <= j <= |subjects|
          invariant forall subject :: subject in counts
                      <==> EnrolledTally(subject, students[..i]) + Occurrences(subject, subjects[..j]) > 0
          invariant forall subject :: subject in counts
                      ==> counts[subject] == EnrolledTally(subject, students[..i]) + Occurrences(subject, subjects[..j])
        {
          assert subjects[..j + 1][..j] == subjects[..j];
          var subject := subjects[j];
          counts := counts[subject := (if subject in counts then counts[subject] else 0) + 1];
          j := j + 1;
        }
        assert subjects[..|subjects|] == subjects;
        i := i + 1;
      }
      assert students[..|students|] == students;
    }

    /** `get_statistics`. */
    method GetStatistics() returns (report: Report)
      ensures report.totalStudents == |students|
      ensures forall subject :: subject in report.enrollmentCount
                <==> exists i :: 0 <= i < |students| && subject in students[i].enrolled
      ensures forall subject :: subject in report.enrollmentCount
                ==> report.enrollmentCount[subject] == EnrolledTally(subject, students)
      ensures report.completedByName == CompletedByName(students)
    {
      var counts := TallyEnrollments();
      forall subject
        ensures subject in counts <==> exists i :: 0 <= i < |students| && subject in students[i].enrolled
      {
        TallyPositive(subject, students);
      }

      var byName: map<string, nat> := map[];
      var i := 0;
      while i < |students|
        invariant 0 <= i <= |students|
        invariant byName == CompletedByName(students[..i])
      {
        assert students[..i + 1][..i] == students[..i];
        var st := students[i];
        byName := byName[DisplayName(st) := |st.completed|];
        i := i + 1;
      }
      assert students[..|students|] == students;
      report := Report(|students|, counts, byName);
    }

    /** `undo_last_action`. */
    method UndoLastAction() returns (ok: bool)
      requires Valid()
      modifies this
      ensures Valid()
      ensures Step(State(), ok) == Undo(old(State()))
      ensures old(history) == [] ==> !ok && students == old(students) && history == old(history)
      ensures old(history) != [] ==> history == old(history)[..|old(history)| - 1]
      ensures Sessions.Invariant(old(State())) ==> Sessions.Invariant(State())
    {
      if history == [] {
        return false;
      }
      ghost var before := State();
      var last := history[|history| - 1];
      history := history[..|history| - 1];
      ok := true;
      match last {
      case Added(id) =>
        var k := Locate(id);
        if k.Some? {
          students := RemoveAt(students, k.value);
        }
      case Removed(snapshot) =>
        students := students + [snapshot];
      case Enrolled(id, subject) =>
        var k := Locate(id);
        if k.Some? && subject in students[k.value].enrolled {
          var st := students[k.value];
          students := students[k.value := st.(enrolled := RemoveFirst(st.enrolled, subject))];
        }
      case Completed(id, subject, _) =>
        var k := Locate(id);
        if k.Some? {
          var i := k.value;
          var st := students[i];
          if subject in st.completed {
            var idx := FirstIndex(st.completed, subject).value;
            var completed := RemoveAt(st.completed, idx);
            if idx < |st.marks| {
              students := students[i := st.(enrolled := st.enrolled + [subject],
                                            completed := completed,
                                            marks := RemoveAt(st.marks, idx))];
            } else {
              // `pop` on the marks raises after `completed` was shortened
              students := students[i := st.(completed := completed)];
              ok := false;
            }
          }
        }
      }
      if Sessions.Invariant(before) {
        Sessions.ApplyKeepsInvariant(before, Sessions.UndoOp);
      }
    }
  }
}
