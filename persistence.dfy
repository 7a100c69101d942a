/**
 * The data file: the text `save_data` writes (one `to_string` line per
 * record, each ended by a newline), how `readlines` cuts a text into lines,
 * and which records the loop in `load_data` keeps (blank and unparseable
 * lines are skipped).  The file's contents are a parameter: opening,
 * reading and writing the file itself is not modelled.
 */
module Persistence {
  import opened Records
  import opened Text
  import opened Codec

  /** The records one line contributes when loaded: none for a blank or
      malformed line, otherwise the parsed record. */
  function LineRecords(line: string): (r: seq<Student>)
    ensures |r| <= 1
    ensures r != [] ==> Strip(line) != "" && FromLine(Strip(line)) == Ok(r[0])
  {
    var t := Strip(line);
    if t == "" then []
    else match FromLine(t)
      case Err(_) => []
      case Ok(st) => [st]
  }

  /** The three outcomes of one line. */
  lemma LineRecordsCases(line: string)
    ensures Strip(line) == "" ==> LineRecords(line) == []
    ensures Strip(line) != "" && FromLine(Strip(line)).Err? ==> LineRecords(line) == []
    ensures Strip(line) != "" && FromLine(Strip(line)).Ok?
            ==> LineRecords(line) == [FromLine(Strip(line)).value]
  {
  }

  /** The records `load_data` collects from the file's lines, in order. */
  function ParseLines(lines: seq<string>): (r: seq<Student>)
    ensures |r| <= |lines|
  {
    if lines == [] then []
    else
      var init := lines[..|lines| - 1];
      ParseLines(init) + LineRecords(lines[|lines| - 1])
  }

  /** Every loaded record comes from one of the lines. */
  lemma {:induction false} ParseLinesFromLines(lines: seq<string>)
    ensures forall st :: st in ParseLines(lines) ==> exists l :: l in lines && st in LineRecords(l)
    decreases |lines|
  {
    if lines != [] {
      var init := lines[..|lines| - 1];
      ParseLinesFromLines(init);
      forall st | st in ParseLines(lines)
        ensures exists l :: l in lines && st in LineRecords(l)
      {
        if st in ParseLines(init) {
          var l :| l in init && st in LineRecords(l);
          assert l in lines;
        } else {
          assert lines[|lines| - 1] in lines;
        }
      }
    }
  }

  /** The lines `save_data` writes, one per record, in collection order. */
  function SaveLines(students: seq<Student>): (r: seq<string>)
    ensures |r| == |students|
    ensures forall i :: 0 <= i < |r| ==> r[i] != "" && r[i][|r[i]| - 1] == '\n'
  {
    seq(|students|, i requires 0 <= i < |students| => ToLine(students[i]) + "\n")
  }

  /** Lines written one after another. */
  function Concat(lines: seq<string>): string {
    if lines == [] then "" else lines[0] + Concat(lines[1..])
  }

  /** The text of the data file after `save_data`. */
  function SaveText(students: seq<Student>): string {
    Concat(SaveLines(students))
  }

  /** Reading a file in text mode with universal newlines: `"\r\n"` and a
      lone `'\r'` both become `'\n'`. */
  function Translate(text: string): (r: string)
    ensures '\r' !in r
    ensures |r| <= |text|
    decreases |text|
  {
    if text == [] then ""
    else if text[0] == '\r' then
      "\n" + Translate(if |text| > 1 && text[1] == '\n' then text[2..] else text[1..])
    else [text[0]] + Translate(text[1..])
  }

  /** `readlines` on translated text: the text is cut after every `'\n'`,
      which stays at the end of its line, and a last line without one is
      kept as it is. */
  function SplitLines(text: string): (r: seq<string>)
    ensures Concat(r) == text
    ensures forall i :: 0 <= i < |r| ==> r[i] != "" && '\n' !in r[i][..|r[i]| - 1]
    ensures forall i :: 0 <= i < |r| - 1 ==> r[i][|r[i]| - 1] == '\n'
    decreases |text|
  {
    if text == [] then []
    else match FirstIndex(text, '\n')
      case None =>
        assert Concat([text]) == text + Concat([]);
        assert [text][0][..|text| - 1] == text[..|text| - 1];
        [text]
      case Some(k) =>
        var line := text[..k + 1];
        var rest := SplitLines(text[k + 1..]);
        var r := [line] + rest;
        assert r[0] == line && r[1..] == rest;
        assert text == line + text[k + 1..];
        assert line[..k] == text[..k];
        assert '\n' !in line[..k];
        r
  }

  /** `f.readlines()` on the file's text. */
  function ReadLines(text: string): seq<string> {
    SplitLines(Translate(text))
  }

  /** A line that is skipped never affects the lines around it: loading a
      file in two halves gives the records of each half, concatenated. */
  lemma {:induction false} ParseLinesConcat(a: seq<string>, b: seq<string>)
    ensures ParseLines(a + b) == ParseLines(a) + ParseLines(b)
    decreases |b|
  {
    if b == [] {
      assert a + b == a;
    } else {
      var b0 := b[..|b| - 1];
      assert (a + b)[..|a + b| - 1] == a + b0;
      ParseLinesConcat(a, b0);
      AppendAssociative(ParseLines(a), ParseLines(b0), LineRecords(b[|b| - 1]));
    }
  }

  /** The line saved for an encodable record loads as that record. */
  lemma SavedLineLoads(st: Student)
    requires Encodable(st)
    ensures LineRecords(ToLine(st) + "\n") == [st]
  {
    LineEnds(st);
    StripNewline(ToLine(st));
    RoundTrip(st);
  }

  /** Loading the first `i + 1` lines adds the records of line `i` to those
      of the first `i`. */
  lemma ParseLinesPrefix(lines: seq<string>, i: nat)
    requires i < |lines|
    ensures ParseLines(lines[..i + 1]) == ParseLines(lines[..i]) + LineRecords(lines[i])
  {
    assert lines[..i + 1][..i] == lines[..i];
  }

  /** Loading one more line adds that line's records at the end. */
  lemma ParseLinesSnoc(lines: seq<string>, line: string)
    ensures ParseLines(lines + [line]) == ParseLines(lines) + LineRecords(line)
  {
    assert (lines + [line])[..|lines|] == lines;
  }

  /** Saving one more record adds its line at the end. */
  lemma SaveLinesSnoc(students: seq<Student>, st: Student)
    ensures SaveLines(students + [st]) == SaveLines(students) + [ToLine(st) + "\n"]
  {
  }

  /** Loading what was saved gives back the same records, provided every
      record can be written as a line. */
  lemma {:induction false} LoadSaved(students: seq<Student>)
    requires forall st :: st in students ==> Encodable(st)
    ensures ParseLines(SaveLines(students)) == students
    decreases |students|
  {
    if students != [] {
      var n := |students|;
      var init := students[..n - 1];
      var last := students[n - 1];
      assert init + [last] == students;
      LoadSaved(init);
      SaveLinesSnoc(init, last);
      ParseLinesSnoc(SaveLines(init), ToLine(last) + "\n");
      SavedLineLoads(last);
    }
  }

  /** A record whose fields hold no line break: only those are written as
      exactly one line of the file. */
  predicate LineFree(st: Student) {
    && '\n' !in st.id && '\r' !in st.id
    && '\n' !in st.name && '\r' !in st.name
    && (forall x :: x in st.enrolled ==> '\n' !in x && '\r' !in x)
    && (forall x :: x in st.completed ==> '\n' !in x && '\r' !in x)
  }

  /** The line written for such a record holds no line break. */
  lemma ToLineLineFree(st: Student, c: char)
    requires LineFree(st) && (c == '\n' || c == '\r')
    ensures c !in ToLine(st)
  {
    JoinAvoids(st.enrolled, ';', c);
    JoinAvoids(st.completed, ';', c);
    forall t | t in MarkTexts(st.marks)
      ensures c !in t
    {
      var i :| 0 <= i < |st.marks| && t == IntToString(st.marks[i]);
      IntTextAvoids(st.marks[i], c);
    }
    JoinAvoids(MarkTexts(st.marks), ';', c);
    JoinAvoids(LineFields(st), ',', c);
  }

  /** A character in no line is in no concatenation of them. */
  lemma {:induction false} ConcatAvoids(lines: seq<string>, c: char)
    requires forall l :: l in lines ==> c !in l
    ensures c !in Concat(lines)
    decreases |lines|
  {
    if lines != [] {
      assert forall l :: l in lines[1..] ==> l in lines;
      ConcatAvoids(lines[1..], c);
    }
  }

  /** Translation changes nothing in a text without `'\r'`. */
  lemma {:induction false} TranslateNoReturn(text: string)
    requires '\r' !in text
    ensures Translate(text) == text
    decreases |text|
  {
    if text != [] {
      TranslateNoReturn(text[1..]);
      assert text == [text[0]] + text[1..];
    }
  }

  /** Lines that each end with their only `'\n'` are cut back apart by
      `readlines`. */
  lemma {:induction false} SplitConcat(lines: seq<string>)
    requires forall i :: 0 <= i < |lines| ==>
      lines[i] != "" && lines[i][|lines[i]| - 1] == '\n' && '\n' !in lines[i][..|lines[i]| - 1]
    ensures SplitLines(Concat(lines)) == lines
    decreases |lines|
  {
    if lines != [] {
      SplitFirstLine(lines[0], Concat(lines[1..]));
      SplitConcat(lines[1..]);
      assert lines == [lines[0]] + lines[1..];
    }
  }

  /** `readlines` cuts a line ending in its only `'\n'` off the front of
      the text. */
  lemma SplitFirstLine(l: string, rest: string)
    requires l != "" && l[|l| - 1] == '\n' && '\n' !in l[..|l| - 1]
    ensures SplitLines(l + rest) == [l] + SplitLines(rest)
  {
    var text := l + rest;
    var k := |l| - 1;
    assert text[..k] == l[..k];
    assert text[k] == l[k];
    assert FirstIndex(text, '\n') == Some(k);
    assert text[..k + 1] == l;
    assert text[k + 1..] == rest;
  }

  /** Saving, then reading the file back with `readlines` and loading it,
      gives back the same collection in the same order, provided every
      record can be written as one line. */
  lemma LoadSavedFile(students: seq<Student>)
    requires forall st :: st in students ==> Encodable(st) && LineFree(st)
    ensures ParseLines(ReadLines(SaveText(students))) == students
  {
    var lines := SaveLines(students);
    forall i | 0 <= i < |lines|
      ensures '\r' !in lines[i] && '\n' !in lines[i][..|lines[i]| - 1]
    {
      ToLineLineFree(students[i], '\n');
      ToLineLineFree(students[i], '\r');
      assert lines[i][..|lines[i]| - 1] == ToLine(students[i]);
    }
    ConcatAvoids(lines, '\r');
    TranslateNoReturn(SaveText(students));
    SplitConcat(lines);
    LoadSaved(students);
  }

  /** The line written for a record with empty subject lists. */
  lemma ToLineNameOnly(id: string, name: string)
    ensures ToLine(Student(id, name, [], [], [])) == id + "," + name + ",,,"
  {
    var f := LineFields(Student(id, name, [], [], []));
    assert f == [id, name, "", "", ""];
    assert f[1..][1..][1..][1..] == [""];
    assert Join(f[1..][1..][1..], ',') == ",";
    assert Join(f[1..][1..], ',') == ",,";
    assert Join(f[1..], ',') == name + ",,,";
  }

  /** Why `LoadSavedFile` needs `LineFree`: a name holding a line break
      passes `Encodable`, but its saved line comes back as two lines, the
      second read as a record of its own. */
  lemma LineBreakSplitsRecord(id: string, a: string, b: string)
    requires id == "" || !IsSpace(id[0])
    requires forall c :: c in [',', '\n', '\r'] ==> c !in id && c !in a && c !in b
    ensures Encodable(Student(id, a + "\n" + b, [], [], []))
    ensures ReadLines(SaveText([Student(id, a + "\n" + b, [], [], [])]))
            == [id + "," + a + "\n", b + ",,,\n"]
  {
    var st := Student(id, a + "\n" + b, [], [], []);
    var first := id + "," + a + "\n";
    var second := b + ",,,\n";
    ToLineNameOnly(id, a + "\n" + b);
    assert SaveText([st]) == first + second by {
      assert SaveLines([st])[0] == first + second;
      assert SaveLines([st]) == [first + second];
      assert Concat([first + second]) == first + second + Concat([]);
    }
    ReadTwoLines(first, second);
  }

  /** Two lines, each ending with its only `'\n'` and holding no `'\r'`,
      are read back as those two lines. */
  lemma ReadTwoLines(first: string, second: string)
    requires first != "" && first[|first| - 1] == '\n' && '\n' !in first[..|first| - 1]
    requires second != "" && second[|second| - 1] == '\n' && '\n' !in second[..|second| - 1]
    requires '\r' !in first && '\r' !in second
    ensures ReadLines(first + second) == [first, second]
  {
    assert Concat([first, second]) == first + second by {
      assert [first, second][1..] == [second];
      assert Concat([second]) == second + Concat([]);
    }
    ConcatAvoids([first, second], '\r');
    TranslateNoReturn(first + second);
    SplitConcat([first, second]);
  }
}
