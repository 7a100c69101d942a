/**
 * The Python string primitives the record codec is built on, stated over
 * Dafny strings: `str.strip()`, `str.split(sep)`, `sep.join(parts)`,
 * `str(n)` for an integer and `int(s)` for a string.
 */
module Text {
  import opened Records

  /** Python's `str.isspace()` for one character: the ASCII controls
      U+0009..U+000D and U+001C..U+001F, the space, and the Unicode
      separators Python treats as whitespace. */
  predicate IsSpace(c: char) {
    || c == ' '
    || '\t' <= c <= '\r'
    || '\U{1C}' <= c <= '\U{1F}'
    || c == '\U{85}' || c == '\U{A0}' || c == '\U{1680}'
    || '\U{2000}' <= c <= '\U{200A}'
    || c == '\U{2028}' || c == '\U{2029}' || c == '\U{202F}'
    || c == '\U{205F}' || c == '\U{3000}'
  }

  /** Every character of `t` is whitespace. */
  predicate AllSpace(t: string) {
    forall i :: 0 <= i < |t| ==> IsSpace(t[i])
  }

  /** Python's `s.lstrip()`: leading whitespace removed. */
  function StripLeft(s: string): (r: string)
    ensures r == "" || !IsSpace(r[0])
    ensures |r| <= |s| && r == s[|s| - |r|..]
  {
    if s != [] && IsSpace(s[0]) then StripLeft(s[1..]) else s
  }

  /** Python's `s.rstrip()`: trailing whitespace removed. */
  function StripRight(s: string): (r: string)
    ensures r == "" || !IsSpace(r[|r| - 1])
    ensures |r| <= |s| && r == s[..|r|]
  {
    if s != [] && IsSpace(s[|s| - 1]) then StripRight(s[..|s| - 1]) else s
  }

  /** Python's `s.strip()`: whitespace removed from both ends, so the
      result neither starts nor ends with whitespace (`StripTrims` says
      that nothing else is removed). */
  function Strip(s: string): (r: string)
    ensures r == "" || (!IsSpace(r[0]) && !IsSpace(r[|r| - 1]))
    ensures |r| <= |s|
  {
    StripRight(StripLeft(s))
  }

  /** What `lstrip` removes is all whitespace. */
  lemma {:induction false} StripLeftRemovesSpace(s: string)
    ensures AllSpace(s[..|s| - |StripLeft(s)|])
    decreases |s|
  {
    if s != [] && IsSpace(s[0]) {
      var t := s[1..];
      var n := |t| - |StripLeft(t)|;
      StripLeftRemovesSpace(t);
      assert s[..n + 1] == [s[0]] + t[..n];
    }
  }

  /** What `rstrip` removes is all whitespace. */
  lemma {:induction false} StripRightRemovesSpace(s: string)
    ensures AllSpace(s[|StripRight(s)|..])
    decreases |s|
  {
    if s != [] && IsSpace(s[|s| - 1]) {
      var t := s[..|s| - 1];
      var r := StripRight(t);
      StripRightRemovesSpace(t);
      assert s[|r|..] == t[|r|..] + [s[|s| - 1]];
    }
  }

  /** `r` is `s[a..a + |r|]` with nothing but whitespace before and after. */
  predicate TrimmedAt(s: string, r: string, a: nat) {
    && a + |r| <= |s|
    && r == s[a..a + |r|]
    && AllSpace(s[..a])
    && AllSpace(s[a + |r|..])
  }

  /** `strip` cuts only whitespace, and only from the ends: its result is a
      slice of the input with nothing but whitespace before and after it. */
  lemma StripTrims(s: string)
    ensures exists a :: TrimmedAt(s, Strip(s), a)
  {
    var l := StripLeft(s);
    var r := StripRight(l);
    var a := |s| - |l|;
    assert Strip(s) == r;
    StripLeftRemovesSpace(s);
    StripRightRemovesSpace(l);
    assert TrimmedAt(s, r, a) by {
      assert l == s[a..];
      assert r == s[a..a + |r|] by {
        assert r == l[..|r|];
      }
      assert s[a + |r|..] == l[|r|..];
    }
  }

  /** A string that starts and ends with a non-space is its own strip. */
  lemma StripNoSpaceEnds(s: string)
    requires s == "" || (!IsSpace(s[0]) && !IsSpace(s[|s| - 1]))
    ensures Strip(s) == s
  {
  }

  /** Stripping a line read back with its newline gives the text written. */
  lemma StripNewline(s: string)
    requires s != [] && !IsSpace(s[0]) && !IsSpace(s[|s| - 1])
    ensures Strip(s + "\n") == s
  {
    var t := s + "\n";
    assert StripLeft(t) == t;
    assert t[..|t| - 1] == s;
    assert StripRight(t) == StripRight(s) == s;
  }

  /** Python's `s.split(sep)` for a one-character separator: never empty,
      and `""` splits into `[""]`. */
  function Split(s: string, sep: char): (parts: seq<string>)
    ensures |parts| >= 1
    decreases |s|
  {
    if s == [] then [""]
    else
      var rest := Split(s[1..], sep);
      if s[0] == sep then [""] + rest else [[s[0]] + rest[0]] + rest[1..]
  }

  /** Python's `sep.join(parts)`: the parts in order with one separator
      between each two, so it starts with the first part and is at least
      as long as the separators it holds. */
  function Join(parts: seq<string>, sep: char): (r: string)
    ensures |parts| >= 1 ==> |parts[0]| <= |r| && r[..|parts[0]|] == parts[0]
    ensures |parts| >= 2 ==> |parts[0]| < |r| && r[|parts[0]|] == sep
    ensures |r| >= |parts| - 1
  {
    if |parts| == 0 then ""
    else if |parts| == 1 then parts[0]
    else parts[0] + [sep] + Join(parts[1..], sep)
  }

  /** No piece of a split holds the separator, and every character of a piece
      comes from the string that was split. */
  lemma {:induction false} SplitPieces(s: string, sep: char)
    ensures forall i :: 0 <= i < |Split(s, sep)| ==>
              sep !in Split(s, sep)[i] && forall c :: c in Split(s, sep)[i] ==> c in s
    decreases |s|
  {
    if s != [] {
      SplitPieces(s[1..], sep);
      var rest := Split(s[1..], sep);
      var parts := Split(s, sep);
      forall i | 0 <= i < |parts|
        ensures sep !in parts[i] && forall c :: c in parts[i] ==> c in s
      {
        if s[0] == sep {
          if i > 0 { assert parts[i] == rest[i - 1]; }
        } else {
          if i == 0 {
            assert parts[0] == [s[0]] + rest[0];
          } else {
            assert parts[i] == rest[i];
          }
        }
      }
    }
  }

  /** The first piece of a split is a prefix of the string. */
  lemma {:induction false} SplitFirstIsPrefix(s: string, sep: char)
    ensures |Split(s, sep)[0]| <= |s| && Split(s, sep)[0] == s[..|Split(s, sep)[0]|]
    decreases |s|
  {
    if s != [] {
      SplitFirstIsPrefix(s[1..], sep);
    }
  }

  /** A split yields a single piece exactly when the separator is absent,
      and that piece is then the whole string. */
  lemma {:induction false} SplitSingle(s: string, sep: char)
    ensures |Split(s, sep)| == 1 <==> sep !in s
    ensures sep !in s ==> Split(s, sep) == [s]
    decreases |s|
  {
    if s != [] {
      SplitSingle(s[1..], sep);
      assert sep in s <==> s[0] == sep || sep in s[1..];
      assert [s[0]] + s[1..] == s;
    }
  }

  /** A non-empty string never splits into the single empty piece. */
  lemma SplitNonEmpty(s: string, sep: char)
    requires s != ""
    ensures Split(s, sep) != [""]
  {
    SplitSingle(s, sep);
  }

  /** Splitting `a + sep + b`, where `a` has no separator, yields `a`
      followed by the pieces of `b`. */
  lemma {:induction false} SplitAfterPiece(a: string, sep: char, b: string)
    requires sep !in a
    ensures Split(a + [sep] + b, sep) == [a] + Split(b, sep)
    decreases |a|
  {
    var s := a + [sep] + b;
    if a == [] {
      assert s[1..] == b;
    } else {
      assert s[1..] == a[1..] + [sep] + b;
      SplitAfterPiece(a[1..], sep, b);
      assert [a[0]] + a[1..] == a;
    }
  }

  /** Splitting a join gives back the parts, provided there is at least one
      part and no part contains the separator. */
  lemma {:induction false} SplitJoin(parts: seq<string>, sep: char)
    requires |parts| >= 1
    requires forall p :: p in parts ==> sep !in p
    ensures Split(Join(parts, sep), sep) == parts
    decreases |parts|
  {
    if |parts| == 1 {
      SplitSingle(parts[0], sep);
    } else {
      SplitJoin(parts[1..], sep);
      SplitAfterPiece(parts[0], sep, Join(parts[1..], sep));
      assert [parts[0]] + parts[1..] == parts;
    }
  }

  /** A join that starts and ends with a non-space survives `strip()` and
      splits back into its parts. */
  lemma SplitStripJoin(parts: seq<string>, sep: char)
    requires |parts| >= 1
    requires forall p :: p in parts ==> sep !in p
    requires var j := Join(parts, sep); j == "" || (!IsSpace(j[0]) && !IsSpace(j[|j| - 1]))
    ensures Split(Strip(Join(parts, sep)), sep) == parts
  {
    StripNoSpaceEnds(Join(parts, sep));
    SplitJoin(parts, sep);
  }

  /** A character that is not the separator and occurs in no part does not
      occur in the join. */
  lemma {:induction false} JoinAvoids(parts: seq<string>, sep: char, c: char)
    requires c != sep
    requires forall p :: p in parts ==> c !in p
    ensures c !in Join(parts, sep)
    decreases |parts|
  {
    if |parts| > 1 {
      JoinAvoids(parts[1..], sep, c);
    }
  }

  /** The join is empty exactly when the parts are `[]` or `[""]`. */
  lemma JoinEmpty(parts: seq<string>, sep: char)
    ensures Join(parts, sep) == "" <==> parts == [] || parts == [""]
  {
    if |parts| > 1 {
      assert Join(parts, sep)[|parts[0]|] == sep;
    }
  }

  /** A join of two or more parts is not empty; it starts with the first
      character of its first part, or with the separator when that part is
      empty, and likewise ends with its last part or the separator. */
  lemma {:induction false} JoinEnds(parts: seq<string>, sep: char)
    requires |parts| >= 2
    ensures var j := Join(parts, sep);
      && j != ""
      && j[0] == (if parts[0] != "" then parts[0][0] else sep)
      && j[|j| - 1] == (var z := parts[|parts| - 1]; if z != "" then z[|z| - 1] else sep)
    decreases |parts|
  {
    var rest := Join(parts[1..], sep);
    if |parts| > 2 {
      JoinEnds(parts[1..], sep);
    }
    assert Join(parts, sep) == parts[0] + ([sep] + rest);
  }

  /** A join whose last part is not empty ends with that part's last
      character. */
  lemma {:induction false} JoinLastPart(parts: seq<string>, sep: char)
    requires |parts| >= 1 && parts[|parts| - 1] != ""
    ensures Join(parts, sep) != ""
    ensures Join(parts, sep)[|Join(parts, sep)| - 1] == parts[|parts| - 1][|parts[|parts| - 1]| - 1]
    decreases |parts|
  {
    if |parts| > 1 {
      JoinLastPart(parts[1..], sep);
    }
  }

  // ---------------------------------------------------------------------------
  // Integers as decimal text
  // ---------------------------------------------------------------------------

  predicate IsDigit(c: char) {
    '0' <= c <= '9'
  }

  function DigitChar(d: nat): (c: char)
    requires d < 10
    ensures IsDigit(c) && c as int - '0' as int == d
  {
    ('0' as int + d) as char
  }

  /** Python's `str(n)` for `n >= 0`: decimal digits, no leading zero. */
  function NatToString(n: nat): (r: string)
    ensures |r| >= 1
    ensures forall i :: 0 <= i < |r| ==> IsDigit(r[i])
  {
    if n < 10 then [DigitChar(n)] else NatToString(n / 10) + [DigitChar(n % 10)]
  }

  /** Python's `str(n)` for any integer. */
  function IntToString(n: int): (r: string)
    ensures |r| >= 1 && IsDigit(r[|r| - 1])
    ensures IsDigit(r[0]) || r[0] == '-'
  {
    if n < 0 then "-" + NatToString(-n) else NatToString(n)
  }

  /** The body `int()` accepts after an optional sign: digits, where an
      underscore may stand between two digits. */
  predicate DigitGroups(d: string) {
    && |d| > 0
    && IsDigit(d[0])
    && (forall i :: 0 <= i < |d| ==> IsDigit(d[i]) || d[i] == '_')
    && (forall i :: 0 <= i < |d| && d[i] == '_' ==> i + 1 < |d| && IsDigit(d[i + 1]))
  }

  /** The number written by digits and underscores, underscores ignored. */
  function DigitsValue(d: string): nat
    requires forall i :: 0 <= i < |d| ==> IsDigit(d[i]) || d[i] == '_'
  {
    if d == [] then 0
    else
      var init := DigitsValue(d[..|d| - 1]);
      var last := d[|d| - 1];
      assert IsDigit(last) || last == '_';
      if last == '_' then init else init * 10 + (last as int - '0' as int)
  }

  /** The whitespace `int()` skips around a number.  On ASCII text that is
      only `' '` and U+0009..U+000D (`Py_ISSPACE`): U+001C..U+001F, which
      `str.isspace()` counts, stay in the text and are rejected.  Other
      Unicode whitespace is turned into `' '` first, so it is skipped. */
  predicate IsIntSpace(c: char) {
    IsSpace(c) && !('\U{1C}' <= c <= '\U{1F}')
  }

  /** Leading `int()` whitespace removed. */
  function IntStripLeft(s: string): (r: string)
    ensures r == "" || !IsIntSpace(r[0])
    ensures |r| <= |s| && r == s[|s| - |r|..]
  {
    if s != [] && IsIntSpace(s[0]) then IntStripLeft(s[1..]) else s
  }

  /** Trailing `int()` whitespace removed. */
  function IntStripRight(s: string): (r: string)
    ensures r == "" || !IsIntSpace(r[|r| - 1])
    ensures |r| <= |s| && r == s[..|r|]
  {
    if s != [] && IsIntSpace(s[|s| - 1]) then IntStripRight(s[..|s| - 1]) else s
  }

  /** The text `int()` reads its number from: `int()` whitespace removed
      from both ends. */
  function IntStrip(s: string): (r: string)
    ensures r == "" || (!IsIntSpace(r[0]) && !IsIntSpace(r[|r| - 1]))
    ensures |r| <= |s|
  {
    IntStripRight(IntStripLeft(s))
  }

  /** Python's `int(s)` on a string: surrounding `int()` whitespace allowed,
      then the number; anything else is a `ValueError`, here `None`. */
  function ParseInt(s: string): (r: Option<int>)
    ensures r.Some? ==> IntStrip(s) != "" && IsDigit(IntStrip(s)[|IntStrip(s)| - 1])
    ensures r.Some? && r.value < 0 ==> IntStrip(s)[0] == '-'
  {
    ParseNumber(IntStrip(s))
  }

  /** The number `int()` reads once the whitespace around it is gone: an
      optional `+` or `-`, then digit groups. */
  function ParseNumber(t: string): (r: Option<int>)
    ensures r.Some? ==> t != "" && IsDigit(t[|t| - 1])
    ensures r.Some? && r.value < 0 ==> t[0] == '-'
  {
    if |t| > 0 && (t[0] == '+' || t[0] == '-') then
      if DigitGroups(t[1..]) then
        var v: int := DigitsValue(t[1..]);
        Some(if t[0] == '-' then -v else v)
      else None
    else if DigitGroups(t) then Some(DigitsValue(t))
    else None
  }

  /** `int()` skips a leading character of its whitespace. */
  lemma ParseIntSkipsSpace(c: char, t: string)
    requires IsIntSpace(c)
    ensures ParseInt([c] + t) == ParseInt(t)
  {
    assert ([c] + t)[1..] == t;
    assert IntStrip([c] + t) == IntStrip(t);
  }

  /** A text that starts with one of U+001C..U+001F strips as if the
      character were absent, yet `int()` rejects it. */
  lemma ParseIntKeepsSeparator(c: char, t: string)
    requires '\U{1C}' <= c <= '\U{1F}'
    ensures Strip([c] + t) == Strip(t)
    ensures ParseInt([c] + t) == None
  {
    StripSkipsSpace(c, t);
    IntStripKeepsHead([c] + t);
    NumberStartsWellFormed(IntStrip([c] + t));
  }

  /** A number read by `int()` starts with a digit or a sign. */
  lemma NumberStartsWellFormed(t: string)
    ensures ParseNumber(t).Some? ==> t != "" && (IsDigit(t[0]) || t[0] == '+' || t[0] == '-')
  {
  }

  /** `int()` whitespace is never stripped past a first character that is
      not such whitespace. */
  lemma IntStripKeepsHead(s: string)
    requires s != [] && !IsIntSpace(s[0])
    ensures IntStrip(s) != [] && IntStrip(s)[0] == s[0]
  {
    assert IntStripLeft(s) == s;
    IntStripRightKeepsHead(s);
  }

  /** Trailing `int()` whitespace is never cut past a first character
      that is not such whitespace. */
  lemma {:induction false} IntStripRightKeepsHead(s: string)
    requires s != [] && !IsIntSpace(s[0])
    ensures IntStripRight(s) != [] && IntStripRight(s)[0] == s[0]
    decreases |s|
  {
    if |s| > 1 && IsIntSpace(s[|s| - 1]) {
      IntStripRightKeepsHead(s[..|s| - 1]);
    }
  }

  /** `strip` drops a leading whitespace character. */
  lemma StripSkipsSpace(c: char, t: string)
    requires IsSpace(c)
    ensures Strip([c] + t) == Strip(t)
  {
    assert ([c] + t)[1..] == t;
    assert StripLeft([c] + t) == StripLeft(t);
  }

  /** A text whose ends are no `int()` whitespace is read as it is. */
  lemma IntStripNoSpaceEnds(s: string)
    requires s == "" || (!IsIntSpace(s[0]) && !IsIntSpace(s[|s| - 1]))
    ensures IntStrip(s) == s
  {
  }

  lemma {:induction false} NatToStringValue(n: nat)
    ensures DigitGroups(NatToString(n))
    ensures DigitsValue(NatToString(n)) == n
  {
    var r := NatToString(n);
    if n >= 10 {
      NatToStringValue(n / 10);
      assert r[..|r| - 1] == NatToString(n / 10);
    }
  }

  /** `int(str(n)) == n` for every integer. */
  lemma IntRoundTrip(n: int)
    ensures ParseInt(IntToString(n)) == Some(n)
  {
    var s := IntToString(n);
    var m: nat := if n < 0 then -n else n;
    var d := NatToString(m);
    NatToStringValue(m);
    assert !IsIntSpace(d[0]) && !IsIntSpace(d[|d| - 1]);
    if n < 0 {
      assert s == "-" + d && s[1..] == d;
      assert !IsIntSpace(s[0]) && !IsIntSpace(s[|s| - 1]);
      IntStripNoSpaceEnds(s);
    } else {
      assert s == d;
      IntStripNoSpaceEnds(s);
      assert s[0] != '+' && s[0] != '-';
    }
  }

  /** The decimal text of an integer holds neither list separator. */
  lemma IntTextAvoids(n: int, c: char)
    requires !IsDigit(c) && c != '-'
    ensures c !in IntToString(n)
  {
    var d := NatToString(if n < 0 then -n else n);
    assert c !in d;
  }
}
