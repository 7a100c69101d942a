/**
 * One student record as one line of text:
 *
 *     id,name,enrolled,completed,marks
 *
 * where the last three fields are lists joined with ';' and an empty list is
 * an empty field.  `ToLine` is `Student.to_string` and `FromLine` is
 * `Student.from_string`.
 */
module Codec {
  import opened Records
  import opened Text

  /** Why a line is not a record: `from_string` raises `ValueError` for
      both. */
  datatype ParseError =
    | TooFewFields          // the stripped line holds no ','
    | BadMark(entry: string) // the first marks entry `int()` rejects

  function MarkTexts(marks: seq<int>): seq<string> {
    seq(|marks|, i requires 0 <= i < |marks| => IntToString(marks[i]))
  }

  /** The five fields `to_string` writes, in order. */
  function LineFields(st: Student): seq<string> {
    [st.id, st.name, Join(st.enrolled, ';'), Join(st.completed, ';'), Join(MarkTexts(st.marks), ';')]
  }

  /** `Student.to_string`: the five fields separated by ','; the line
      starts with the id and a comma. */
  function ToLine(st: Student): (r: string)
    ensures |st.id| < |r| && r[..|st.id|] == st.id && r[|st.id|] == ','
  {
    Join(LineFields(st), ',')
  }

  /** The comma-separated fields `from_string` works on. */
  function Fields(line: string): seq<string> {
    Split(Strip(line), ',')
  }

  /** A subject-list field: absent or empty gives `[]`, otherwise the
      ';'-separated entries. */
  function SubjectList(parts: seq<string>, i: nat): seq<string> {
    if |parts| > i && parts[i] != "" then Split(parts[i], ';') else []
  }

  /** Each entry read by `parse`, in order; the first entry `parse`
      rejects is the error. */
  function ParseEach(entries: seq<string>, parse: string -> Option<int>): (r: Result<seq<int>, ParseError>)
    ensures r.Ok? ==> |r.value| == |entries|
    ensures r.Err? ==> r.error.BadMark?
  {
    if entries == [] then Ok([])
    else match parse(entries[0])
      case None => Err(BadMark(entries[0]))
      case Some(v) =>
        match ParseEach(entries[1..], parse)
        case Err(e) => Err(e)
        case Ok(vs) => Ok([v] + vs)
  }

  /** `[int(mark) for mark in entries]`. */
  function ParseMarks(entries: seq<string>): Result<seq<int>, ParseError> {
    ParseEach(entries, ParseInt)
  }

  /** A failed parse names an entry `parse` rejects. */
  lemma {:induction false} ParseEachError(entries: seq<string>, parse: string -> Option<int>)
    ensures var r := ParseEach(entries, parse);
      r.Err? ==> r.error.BadMark? && r.error.entry in entries && parse(r.error.entry).None?
    decreases |entries|
  {
    if entries != [] && parse(entries[0]).Some? {
      ParseEachError(entries[1..], parse);
      assert forall e :: e in entries[1..] ==> e in entries;
    }
  }

  /** A successful parse holds the value of each entry, in order. */
  lemma {:induction false} ParseEachValues(entries: seq<string>, parse: string -> Option<int>)
    ensures var r := ParseEach(entries, parse);
      r.Ok? ==> |r.value| == |entries|
                && forall i :: 0 <= i < |entries| ==> parse(entries[i]) == Some(r.value[i])
    decreases |entries|
  {
    if entries != [] && ParseEach(entries, parse).Ok? {
      var rest := entries[1..];
      ParseEachValues(rest, parse);
      var v := parse(entries[0]).value;
      var vs := ParseEach(rest, parse).value;
      assert ParseEach(entries, parse).value == [v] + vs;
      forall i | 0 <= i < |entries|
        ensures parse(entries[i]) == Some(([v] + vs)[i])
      {
        if i > 0 { assert entries[i] == rest[i - 1]; }
      }
    }
  }

  /** Entries that `parse` all accepts parse as their values. */
  lemma {:induction false} ParseEachOk(entries: seq<string>, parse: string -> Option<int>, values: seq<int>)
    requires |entries| == |values|
    requires forall i :: 0 <= i < |entries| ==> parse(entries[i]) == Some(values[i])
    ensures ParseEach(entries, parse) == Ok(values)
    decreases |entries|
  {
    if entries != [] {
      var rest := entries[1..];
      forall i | 0 <= i < |rest|
        ensures parse(rest[i]) == Some(values[1..][i])
      {
        assert rest[i] == entries[i + 1];
      }
      ParseEachOk(rest, parse, values[1..]);
      assert [values[0]] + values[1..] == values;
    }
  }

  /** The parse fails exactly when `parse` rejects some entry, and then
      the error is a `BadMark`. */
  lemma ParseEachFails(entries: seq<string>, parse: string -> Option<int>)
    ensures ParseEach(entries, parse).Err? <==> exists e :: e in entries && parse(e).None?
    ensures ParseEach(entries, parse).Err? ==> ParseEach(entries, parse).error.BadMark?
  {
    ParseEachError(entries, parse);
    ParseEachValues(entries, parse);
    if exists e :: e in entries && parse(e).None? {
      var e :| e in entries && parse(e).None?;
      var i :| 0 <= i < |entries| && entries[i] == e;
    }
  }

  /** The marks parse exactly when `int()` accepts every entry, and then
      each mark is the value of its entry; otherwise the error names an
      entry that `int()` rejects. */
  lemma ParseMarksResult(entries: seq<string>)
    ensures var r := ParseMarks(entries);
      && (r.Ok? <==> forall i :: 0 <= i < |entries| ==> ParseInt(entries[i]).Some?)
      && (r.Ok? ==> |r.value| == |entries|
                    && forall i :: 0 <= i < |entries| ==> ParseInt(entries[i]) == Some(r.value[i]))
      && (r.Err? ==> r.error.BadMark? && r.error.entry in entries && ParseInt(r.error.entry).None?)
  {
    ParseEachError(entries, ParseInt);
    ParseEachValues(entries, ParseInt);
    var r := ParseMarks(entries);
    if r.Err? {
      var k :| 0 <= k < |entries| && entries[k] == r.error.entry;
    }
  }

  /** `Student.from_string`: the id and the name are the first two
      comma-separated fields of the stripped line; a bad mark can only come
      from a non-empty fifth field. */
  function FromLine(line: string): (r: Result<Student, ParseError>)
    ensures r.Ok? ==> |Fields(line)| >= 2 && r.value.id == Fields(line)[0]
                      && r.value.name == Fields(line)[1]
    ensures r.Err? && r.error.BadMark? ==> |Fields(line)| > 4 && Fields(line)[4] != ""
  {
    var parts := Fields(line);
    if |parts| < 2 then Err(TooFewFields)
    else
      var marks := if |parts| > 4 && parts[4] != "" then ParseMarks(Split(parts[4], ';')) else Ok([]);
      match marks
      case Err(e) => Err(e)
      case Ok(ms) => Ok(Student(parts[0], parts[1], SubjectList(parts, 2), SubjectList(parts, 3), ms))
  }

  /** The marks field holds an entry `int()` rejects. */
  predicate BadMarksField(parts: seq<string>) {
    |parts| > 4 && parts[4] != "" && exists e :: e in Split(parts[4], ';') && ParseInt(e).None?
  }

  /** The marks field fails to parse exactly when it holds an entry that
      is rejected by `int()`. */
  lemma MarksFieldFails(parts: seq<string>)
    requires |parts| > 4 && parts[4] != ""
    ensures ParseMarks(Split(parts[4], ';')).Err? <==> BadMarksField(parts)
    ensures ParseMarks(Split(parts[4], ';')).Err? ==> ParseMarks(Split(parts[4], ';')).error.BadMark?
  {
    ParseEachFails(Split(parts[4], ';'), ParseInt);
  }

  /** `from_string` fails exactly when the stripped line has no ',' (fewer
      than two fields) or when `int()` rejects a marks entry; the first
      check wins. */
  lemma FromLineErrors(line: string)
    ensures FromLine(line) == Err(TooFewFields) <==> ',' !in Strip(line)
    ensures FromLine(line).Err? <==> ',' !in Strip(line) || BadMarksField(Fields(line))
  {
    var parts := Fields(line);
    SplitSingle(Strip(line), ',');
    assert |parts| < 2 <==> ',' !in Strip(line);
    if |parts| > 4 && parts[4] != "" {
      MarksFieldFails(parts);
    }
  }

  /** Fields missing at the end of the line become empty lists; a line with
      at least two fields and a good marks field always parses. */
  lemma MissingFieldsAreEmpty(line: string)
    requires ',' in Strip(line) && !BadMarksField(Fields(line))
    ensures FromLine(line).Ok?
    ensures FromLine(line).value.id == Fields(line)[0]
    ensures FromLine(line).value.name == Fields(line)[1]
    ensures |Fields(line)| <= 2 ==> FromLine(line).value.enrolled == []
    ensures |Fields(line)| <= 3 ==> FromLine(line).value.completed == []
    ensures |Fields(line)| <= 4 ==> FromLine(line).value.marks == []
  {
    FromLineErrors(line);
  }

  /** A subject list the line format can carry: no entry holds a separator,
      and it is not the one list, `[""]`, whose join is an empty field. */
  predicate ListEncodable(xs: seq<string>) {
    xs != [""] && forall x :: x in xs ==> ',' !in x && ';' !in x
  }

  /** The records `ToLine` writes and `FromLine` reads back unchanged: the
      id does not start with whitespace (the line is stripped), id and name
      hold no ',', and both subject lists are encodable. */
  predicate Encodable(st: Student) {
    && (st.id == "" || !IsSpace(st.id[0]))
    && ',' !in st.id
    && ',' !in st.name
    && ListEncodable(st.enrolled)
    && ListEncodable(st.completed)
  }

  lemma MarkTextsPlain(marks: seq<int>)
    ensures forall t :: t in MarkTexts(marks) ==> ',' !in t && ';' !in t && t != ""
  {
    forall t | t in MarkTexts(marks)
      ensures ',' !in t && ';' !in t && t != ""
    {
      var i :| 0 <= i < |marks| && t == IntToString(marks[i]);
      IntTextAvoids(marks[i], ',');
      IntTextAvoids(marks[i], ';');
    }
  }

  /** The written line starts and ends with a non-space. */
  lemma LineEnds(st: Student)
    requires Encodable(st)
    ensures ToLine(st) != ""
    ensures !IsSpace(ToLine(st)[0]) && !IsSpace(ToLine(st)[|ToLine(st)| - 1])
  {
    JoinEnds(LineFields(st), ',');
    LineLastChar(st);
  }

  lemma LineLastChar(st: Student)
    ensures ToLine(st) != ""
    ensures var line := ToLine(st); IsDigit(line[|line| - 1]) || line[|line| - 1] == ','
  {
    JoinEnds(LineFields(st), ',');
    MarksFieldEnd(st.marks);
  }

  /** The marks field is empty or ends with a digit. */
  lemma MarksFieldEnd(marks: seq<int>)
    ensures var m := Join(MarkTexts(marks), ';'); m == "" || IsDigit(m[|m| - 1])
  {
    var ms := MarkTexts(marks);
    if marks != [] {
      var t := IntToString(marks[|marks| - 1]);
      assert ms[|ms| - 1] == t;
      JoinLastPart(ms, ';');
    }
  }

  /** The three list fields of a written line hold no ','. */
  lemma ListFieldsAvoidComma(st: Student)
    requires Encodable(st)
    ensures ',' !in Join(st.enrolled, ';')
    ensures ',' !in Join(st.completed, ';')
    ensures ',' !in Join(MarkTexts(st.marks), ';')
  {
    JoinAvoids(st.enrolled, ';', ',');
    JoinAvoids(st.completed, ';', ',');
    MarkTextsPlain(st.marks);
    JoinAvoids(MarkTexts(st.marks), ';', ',');
  }

  /** Reading a subject field written by `Join` gives back the list. */
  lemma SubjectListRoundTrip(xs: seq<string>, parts: seq<string>, i: nat)
    requires ListEncodable(xs)
    requires i < |parts| && parts[i] == Join(xs, ';')
    ensures SubjectList(parts, i) == xs
  {
    JoinEmpty(xs, ';');
    if xs != [] {
      SplitJoin(xs, ';');
    }
  }

  /** A written line splits back into the five fields it was joined from. */
  lemma LineSplitsIntoFields(st: Student)
    requires Encodable(st)
    ensures Fields(ToLine(st)) == LineFields(st)
  {
    var fs := LineFields(st);
    LineEnds(st);
    ListFieldsAvoidComma(st);
    assert forall p :: p in fs ==> ',' !in p;
    SplitStripJoin(fs, ',');
  }

  /** Each written mark reads back as itself. */
  lemma MarkTextsParse(marks: seq<int>)
    ensures forall i :: 0 <= i < |marks| ==> ParseInt(MarkTexts(marks)[i]) == Some(marks[i])
  {
    forall i | 0 <= i < |marks|
      ensures ParseInt(MarkTexts(marks)[i]) == Some(marks[i])
    {
      IntRoundTrip(marks[i]);
    }
  }

  /** The written marks parse back as the marks. */
  lemma ParseMarkTexts(marks: seq<int>)
    ensures ParseMarks(MarkTexts(marks)) == Ok(marks)
  {
    MarkTextsParse(marks);
    ParseEachOk(MarkTexts(marks), ParseInt, marks);
  }

  /** Reading a marks field written by `Join` gives back the marks. */
  lemma MarksRoundTrip(marks: seq<int>)
    ensures var m := Join(MarkTexts(marks), ';');
      (m == "" <==> marks == [])
      && (marks != [] ==> ParseMarks(Split(m, ';')) == Ok(marks))
  {
    var ms := MarkTexts(marks);
    MarkTextsPlain(marks);
    JoinEmpty(ms, ';');
    if marks != [] {
      SplitJoin(ms, ';');
      ParseMarkTexts(marks);
    }
  }

  /** `from_string(to_string(s))` rebuilds `s` field for field. */
  lemma RoundTrip(st: Student)
    requires Encodable(st)
    ensures FromLine(ToLine(st)) == Ok(st)
  {
    var parts := Fields(ToLine(st));
    LineSplitsIntoFields(st);
    SubjectListRoundTrip(st.enrolled, parts, 2);
    SubjectListRoundTrip(st.completed, parts, 3);
    MarksRoundTrip(st.marks);
  }

  /** Every record `from_string` produces can be written and read back. */
  lemma ParsedIsEncodable(line: string)
    requires FromLine(line).Ok?
    ensures Encodable(FromLine(line).value)
  {
    var t := Strip(line);
    var parts := Fields(line);
    SplitPieces(t, ',');
    SplitFirstIsPrefix(t, ',');
    assert parts[0] == t[..|parts[0]|];
    SubjectListEncodable(parts, 2);
    SubjectListEncodable(parts, 3);
  }

  lemma SubjectListEncodable(parts: seq<string>, i: nat)
    requires forall k :: 0 <= k < |parts| ==> ',' !in parts[k]
    ensures ListEncodable(SubjectList(parts, i))
  {
    if |parts| > i && parts[i] != "" {
      SplitPieces(parts[i], ';');
      SplitNonEmpty(parts[i], ';');
    }
  }

  /** Writing a parsed record and parsing it again gives the same record:
      `from_string(to_string(from_string(line))) == from_string(line)`. */
  lemma ReparseIsStable(line: string)
    requires FromLine(line).Ok?
    ensures FromLine(ToLine(FromLine(line).value)) == FromLine(line)
  {
    ParsedIsEncodable(line);
    RoundTrip(FromLine(line).value);
  }
}
