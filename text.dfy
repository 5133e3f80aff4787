/**
 * The three Python string builtins the sync script relies on, as pure
 * functions on `string` (= `seq<char>`):
 *   - `str.strip()` with no argument,
 *   - `str.split(' => ')` with an explicit separator, and
 *   - `int(text)` for a base-10 integer literal, which can fail.
 */
module Text {
  import opened Wrappers

  // ---------------------------------------------------------------------
  // str.strip(), and the whitespace int() skips

  /** The ASCII characters Python's `str.isspace` accepts. */
  predicate IsSpace(c: char)
  {
    c == ' ' || c == '\t' || c == '\n' || c == '\r' || c == '\U{000B}' || c == '\U{000C}'
    || ('\U{001C}' <= c <= '\U{001F}')
  }

  /**
   * The characters `int()` skips around a literal (`Py_ISSPACE`): unlike
   * `str.isspace`, not the separators U+001C to U+001F.
   */
  predicate IsIntSpace(c: char)
  {
    c == ' ' || c == '\t' || c == '\n' || c == '\r' || c == '\U{000B}' || c == '\U{000C}'
  }

  /** Which whitespace is removed: that of `str.strip()` or that of `int()`. */
  datatype Whitespace = StrWhitespace | IntWhitespace

  predicate IsWhite(ws: Whitespace, c: char)
  {
    match ws
    case StrWhitespace => IsSpace(c)
    case IntWhitespace => IsIntSpace(c)
  }

  /** Removes the whitespace at the front: what is left is a suffix of `s`. */
  function TrimLeft(ws: Whitespace, s: string): (r: string)
    ensures |r| <= |s| && r == s[|s| - |r|..]
    ensures r == [] || !IsWhite(ws, r[0])
    ensures forall k :: 0 <= k < |s| - |r| ==> IsWhite(ws, s[k])
  {
    if s != [] && IsWhite(ws, s[0]) then TrimLeft(ws, s[1..]) else s
  }

  /** Removes the whitespace at the back: what is left is a prefix of `s`. */
  function TrimRight(ws: Whitespace, s: string): (r: string)
    ensures |r| <= |s| && r == s[..|r|]
    ensures r == [] || !IsWhite(ws, r[|r| - 1])
    ensures forall k :: |r| <= k < |s| ==> IsWhite(ws, s[k])
  {
    if s != [] && IsWhite(ws, s[|s| - 1]) then TrimRight(ws, s[..|s| - 1]) else s
  }

  /**
   * The slice of `s` left after removing whitespace from both ends;
   * everything removed is whitespace and the result neither starts nor ends
   * with whitespace. `Strip(StrWhitespace, s)` is `s.strip()`.
   */
  function Strip(ws: Whitespace, s: string): (r: string)
    ensures r == [] || (!IsWhite(ws, r[0]) && !IsWhite(ws, r[|r| - 1]))
    ensures exists i :: StrippedAt(ws, s, r, i)
  {
    var t := TrimLeft(ws, s);
    WindowOfSuffix(ws, s, t, TrimRight(ws, t));
    TrimRight(ws, t)
  }

  /** A prefix `r` of a suffix `t` of `s`, with only whitespace cut off, is a strip window. */
  lemma {:induction false} WindowOfSuffix(ws: Whitespace, s: string, t: string, r: string)
    requires |t| <= |s| && t == s[|s| - |t|..]
    requires |r| <= |t| && r == t[..|r|]
    requires forall k :: 0 <= k < |s| - |t| ==> IsWhite(ws, s[k])
    requires forall k :: |r| <= k < |t| ==> IsWhite(ws, t[k])
    ensures StrippedAt(ws, s, r, |s| - |t|)
  {
    var i := |s| - |t|;
    assert r == s[i..i + |r|] by {
      forall k | 0 <= k < |r|
        ensures r[k] == s[i + k]
      {
        assert r[k] == t[k] == s[i + k];
      }
    }
    forall k | i + |r| <= k < |s|
      ensures IsWhite(ws, s[k])
    {
      assert s[k] == t[k - i];
    }
  }

  /** `r` is `s[i..]` cut to `|r|` characters, with only whitespace around it. */
  predicate StrippedAt(ws: Whitespace, s: string, r: string, i: int)
  {
    0 <= i <= |s| - |r| && r == s[i..i + |r|]
    && (forall k :: 0 <= k < i ==> IsWhite(ws, s[k]))
    && (forall k :: i + |r| <= k < |s| ==> IsWhite(ws, s[k]))
  }

  /** A string that has no whitespace at either end is its own strip. */
  lemma {:induction false} StripKeeps(ws: Whitespace, s: string)
    requires s == [] || (!IsWhite(ws, s[0]) && !IsWhite(ws, s[|s| - 1]))
    ensures Strip(ws, s) == s
  {
    assert TrimLeft(ws, s) == s;
    assert TrimRight(ws, s) == s;
  }

  /** Trailing whitespace (the newline a file line keeps) goes away under strip. */
  lemma {:induction false} StripDropsTrailing(ws: Whitespace, s: string, trail: string)
    requires s == [] || (!IsWhite(ws, s[0]) && !IsWhite(ws, s[|s| - 1]))
    requires forall k :: 0 <= k < |trail| ==> IsWhite(ws, trail[k])
    ensures Strip(ws, s + trail) == s
  {
    if s == [] {
      assert s + trail == trail;
      TrimLeftAllSpace(ws, trail);
    } else {
      assert TrimLeft(ws, s + trail) == s + trail;
      TrimRightTrailing(ws, s, trail);
    }
  }

  lemma {:induction false} TrimLeftAllSpace(ws: Whitespace, s: string)
    requires forall k :: 0 <= k < |s| ==> IsWhite(ws, s[k])
    ensures TrimLeft(ws, s) == []
  {
  }

  lemma {:induction false} TrimRightTrailing(ws: Whitespace, s: string, trail: string)
    requires s != [] && !IsWhite(ws, s[|s| - 1])
    requires forall k :: 0 <= k < |trail| ==> IsWhite(ws, trail[k])
    ensures TrimRight(ws, s + trail) == s
    decreases |trail|
  {
    if trail == [] {
      assert s + trail == s;
    } else {
      var t := trail[..|trail| - 1];
      assert (s + trail)[..|s + trail| - 1] == s + t;
      TrimRightTrailing(ws, s, t);
    }
  }

  /** Stripping twice is stripping once. */
  lemma {:induction false} StripIdempotent(ws: Whitespace, s: string)
    ensures Strip(ws, Strip(ws, s)) == Strip(ws, s)
  {
    StripKeeps(ws, Strip(ws, s));
  }

  // ---------------------------------------------------------------------
  // str.split(' => ')

  /** The field separator of a result line. */
  const Separator: string := " => "

  /** The separator occurs in `t` starting at index `i`. */
  predicate SeparatorAt(t: string, i: int)
  {
    0 <= i && i + |Separator| <= |t| && t[i..i + |Separator|] == Separator
  }

  predicate NoSeparator(t: string)
  {
    forall i :: 0 <= i <= |t| ==> !SeparatorAt(t, i)
  }

  predicate NoBlank(t: string)
  {
    forall k :: 0 <= k < |t| ==> t[k] != ' '
  }

  /** `Separator.join(parts)`. */
  function Join(parts: seq<string>): string
  {
    if parts == [] then ""
    else if |parts| == 1 then parts[0]
    else parts[0] + Separator + Join(parts[1..])
  }

  /**
   * `s.split(' => ')`: cuts `s` at every occurrence of the separator found
   * by scanning from left to right, occurrences not overlapping. There is
   * always at least one part; SplitJoin shows that joining the parts gives
   * `s` back and that no part contains the separator, SplitCutsLeftmost that
   * each cut is at the leftmost separator, and SplitUnique that these facts
   * determine the parts.
   */
  function Split(s: string): (parts: seq<string>)
    ensures |parts| >= 1
    decreases |s|
  {
    if |s| < |Separator| then
      [s]
    else if s[..|Separator|] == Separator then
      [""] + Split(s[|Separator|..])
    else
      var rest := Split(s[1..]);
      [[s[0]] + rest[0]] + rest[1..]
  }

  /** Joining the parts of `s` gives `s` back, and no part contains the separator. */
  lemma {:induction false} SplitJoin(s: string)
    ensures Join(Split(s)) == s
    ensures forall j :: 0 <= j < |Split(s)| ==> NoSeparator(Split(s)[j])
    decreases |s|
  {
    var parts := Split(s);
    if |s| < |Separator| {
      assert parts == [s];
      assert NoSeparator(s);
    } else if s[..|Separator|] == Separator {
      var rest := Split(s[|Separator|..]);
      SplitJoin(s[|Separator|..]);
      assert parts == [""] + rest;
      assert NoSeparator("");
      assert Join([""] + rest) == "" + Separator + Join(rest);
      assert s == Separator + s[|Separator|..];
    } else {
      var rest := Split(s[1..]);
      SplitJoin(s[1..]);
      assert parts == [[s[0]] + rest[0]] + rest[1..];
      JoinHead(rest);
      HeadNoSeparator(s, rest[0]);
      JoinConsHead(s[0], rest);
      assert s == [s[0]] + s[1..];
      forall j | 0 <= j < |parts|
        ensures NoSeparator(parts[j])
      {
        if j > 0 {
          assert parts[j] == rest[j];
        }
      }
    }
  }

  /**
   * Every part but the last ends at the leftmost separator of the text that
   * remains from that part on: no separator of the joined text starts inside
   * the part. With `SplitJoin` this determines the parts of `s`.
   */
  ghost predicate CutsLeftmost(parts: seq<string>)
  {
    forall j, i :: 0 <= j < |parts| - 1 && 0 <= i < |parts[j]| ==> !SeparatorAt(Join(parts[j..]), i)
  }

  /** `split` cuts at the leftmost separator each time. */
  lemma {:induction false} SplitCutsLeftmost(s: string)
    ensures CutsLeftmost(Split(s))
    decreases |s|
  {
    if |s| < |Separator| {
    } else if s[..|Separator|] == Separator {
      SplitCutsLeftmost(s[|Separator|..]);
      EmptyFirstCutsLeftmost(Split(s[|Separator|..]));
    } else {
      SplitCutsLeftmost(s[1..]);
      SplitJoin(s[1..]);
      ConsCutsLeftmost(s, Split(s[1..]));
    }
  }

  /** An empty first part in front of leftmost cuts keeps them leftmost. */
  lemma {:induction false} EmptyFirstCutsLeftmost(rest: seq<string>)
    requires CutsLeftmost(rest)
    ensures CutsLeftmost([""] + rest)
  {
    var parts := [""] + rest;
    forall j, i | 0 <= j < |parts| - 1 && 0 <= i < |parts[j]|
      ensures !SeparatorAt(Join(parts[j..]), i)
    {
      assert parts[j..] == rest[j - 1..];
    }
  }

  /**
   * Extending the first part by a character that does not start a
   * separator keeps the cuts leftmost.
   */
  lemma {:induction false} ConsCutsLeftmost(s: string, rest: seq<string>)
    requires |s| >= |Separator| && s[..|Separator|] != Separator
    requires |rest| >= 1 && Join(rest) == s[1..] && CutsLeftmost(rest)
    ensures CutsLeftmost([[s[0]] + rest[0]] + rest[1..])
  {
    var parts := [[s[0]] + rest[0]] + rest[1..];
    JoinConsHead(s[0], rest);
    assert [s[0]] + s[1..] == s;
    assert Join(parts) == s;
    forall j, i | 0 <= j < |parts| - 1 && 0 <= i < |parts[j]|
      ensures !SeparatorAt(Join(parts[j..]), i)
    {
      if j > 0 {
        assert parts[j..] == rest[j..] && parts[j] == rest[j];
        assert j < |rest| - 1 && i < |rest[j]|;
      } else {
        assert parts[0..] == parts;
        if i == 0 {
          assert s[0..|Separator|] == s[..|Separator|];
          assert !SeparatorAt(s, 0);
        } else {
          assert rest[0..] == rest;
          assert 0 < |rest| - 1 && i - 1 < |rest[0]|;
          assert !SeparatorAt(Join(rest[0..]), i - 1);
          assert !SeparatorAt(s[1..], i - 1);
          SeparatorAfterFirst(s, i);
          assert !SeparatorAt(s, i);
        }
      }
    }
  }

  /** Past the first character, a separator of `s` is one of `s[1..]`, one place earlier. */
  lemma {:induction false} SeparatorAfterFirst(s: string, i: int)
    requires 1 <= i && s != []
    ensures SeparatorAt(s, i) <==> SeparatorAt(s[1..], i - 1)
  {
    if i + |Separator| <= |s| {
      var here := s[i..i + |Separator|];
      var there := s[1..][i - 1..i - 1 + |Separator|];
      forall k | 0 <= k < |Separator|
        ensures here[k] == there[k]
      {
        assert there[k] == s[1..][i - 1 + k] == s[i + k];
      }
      assert here == there;
    }
  }

  /**
   * The parts of `split` are the only ones that join to `s` without a
   * separator inside any part and cut at the leftmost separator each time.
   */
  lemma {:induction false} SplitUnique(s: string, parts: seq<string>)
    requires |parts| >= 1 && Join(parts) == s
    requires forall j :: 0 <= j < |parts| ==> NoSeparator(parts[j])
    requires CutsLeftmost(parts)
    ensures parts == Split(s)
    decreases |s|
  {
    if |parts| == 1 {
      SplitNoSeparator(s);
    } else if parts[0] == "" {
      var tail := parts[1..];
      assert s == Separator + Join(tail);
      assert s[..|Separator|] == Separator && s[|Separator|..] == Join(tail);
      TailCutsLeftmost(parts);
      SplitUnique(Join(tail), tail);
      assert parts == [""] + tail;
    } else {
      var p := parts[0];
      var shorter := [p[1..]] + parts[1..];
      FirstCutNotAtStart(parts);
      JoinConsHead(p[0], shorter);
      assert [[p[0]] + shorter[0]] + shorter[1..] == parts by {
        assert [p[0]] + p[1..] == p;
        assert shorter[1..] == parts[1..];
      }
      assert s[1..] == Join(shorter);
      ShorterParts(parts);
      SplitUnique(s[1..], shorter);
    }
  }

  /** A separator-free string is a single part. */
  lemma {:induction false} SplitNoSeparator(s: string)
    requires NoSeparator(s)
    ensures Split(s) == [s]
    decreases |s|
  {
    if |s| >= |Separator| {
      assert !SeparatorAt(s, 0);
      assert s[0..|Separator|] == s[..|Separator|];
      forall i | 0 <= i <= |s[1..]|
        ensures !SeparatorAt(s[1..], i)
      {
        SeparatorAfterFirst(s, i + 1);
      }
      SplitNoSeparator(s[1..]);
      assert [s[0]] + s[1..] == s;
    }
  }

  /** The cuts after the first part are leftmost cuts of the rest. */
  lemma {:induction false} TailCutsLeftmost(parts: seq<string>)
    requires |parts| >= 1 && CutsLeftmost(parts)
    ensures CutsLeftmost(parts[1..])
  {
    var tail := parts[1..];
    forall j, i | 0 <= j < |tail| - 1 && 0 <= i < |tail[j]|
      ensures !SeparatorAt(Join(tail[j..]), i)
    {
      assert tail[j..] == parts[j + 1..];
      assert tail[j] == parts[j + 1];
    }
  }

  /** A non-empty first part of two or more means the text does not start with the separator. */
  lemma {:induction false} FirstCutNotAtStart(parts: seq<string>)
    requires |parts| >= 2 && parts[0] != [] && CutsLeftmost(parts)
    ensures |Join(parts)| >= |Separator| && Join(parts)[..|Separator|] != Separator
  {
    assert parts[0..] == parts;
    assert !SeparatorAt(Join(parts[0..]), 0);
    var s := Join(parts);
    assert s[0..|Separator|] == s[..|Separator|];
  }

  /** Dropping the first character of the first part keeps the conditions of `SplitUnique`. */
  lemma {:induction false} ShorterParts(parts: seq<string>)
    requires |parts| >= 2 && parts[0] != []
    requires forall j :: 0 <= j < |parts| ==> NoSeparator(parts[j])
    requires CutsLeftmost(parts)
    ensures var shorter := [parts[0][1..]] + parts[1..];
      && (forall j :: 0 <= j < |shorter| ==> NoSeparator(shorter[j]))
      && CutsLeftmost(shorter)
  {
    var p := parts[0];
    var shorter := [p[1..]] + parts[1..];
    var s := Join(parts);
    assert parts[0..] == parts;
    assert [[p[0]] + shorter[0]] + shorter[1..] == parts by {
      assert [p[0]] + p[1..] == p;
      assert shorter[1..] == parts[1..];
    }
    JoinConsHead(p[0], shorter);
    assert Join(shorter) == s[1..];
    forall i | 0 <= i <= |p[1..]|
      ensures !SeparatorAt(p[1..], i)
    {
      SeparatorAfterFirst(p, i + 1);
    }
    forall j | 0 <= j < |shorter|
      ensures NoSeparator(shorter[j])
    {
      if j > 0 { assert shorter[j] == parts[j]; }
    }
    forall j, i | 0 <= j < |shorter| - 1 && 0 <= i < |shorter[j]|
      ensures !SeparatorAt(Join(shorter[j..]), i)
    {
      if j > 0 {
        assert shorter[j..] == parts[j..];
        assert shorter[j] == parts[j];
      } else {
        assert shorter[0..] == shorter;
        assert !SeparatorAt(Join(parts[0..]), i + 1);
        SeparatorAfterFirst(s, i + 1);
      }
    }
  }

  lemma {:induction false} JoinThree(a: string, b: string, c: string)
    ensures Join([a, b, c]) == a + Separator + b + Separator + c
  {
    assert [a, b, c][1..] == [b, c] && [b, c][1..] == [c];
    assert Join([c]) == c;
    assert Join([b, c]) == b + Separator + c;
    assert Join([a, b, c]) == a + Separator + (b + Separator + c);
    assert a + Separator + (b + Separator + c) == a + Separator + b + Separator + c;
  }

  /** The first part is a prefix of the joined string. */
  lemma JoinHead(parts: seq<string>)
    requires |parts| >= 1
    ensures |parts[0]| <= |Join(parts)| && Join(parts)[..|parts[0]|] == parts[0]
  {
  }

  lemma {:induction false} JoinConsHead(c: char, parts: seq<string>)
    requires |parts| >= 1
    ensures Join([[c] + parts[0]] + parts[1..]) == [c] + Join(parts)
  {
    var ps := [[c] + parts[0]] + parts[1..];
    if |parts| == 1 {
      assert ps == [[c] + parts[0]];
    } else {
      assert ps[1..] == parts[1..];
      var j := Join(parts[1..]);
      calc {
        Join(ps);
        ps[0] + Separator + Join(ps[1..]);
        ([c] + parts[0]) + Separator + j;
        [c] + (parts[0] + Separator + j);
        [c] + Join(parts);
      }
    }
  }

  /** Prepending a character that does not start a separator keeps a prefix separator-free. */
  lemma {:induction false} HeadNoSeparator(s: string, tail: string)
    requires |s| >= |Separator| && s[..|Separator|] != Separator
    requires NoSeparator(tail)
    requires |tail| <= |s| - 1 && s[1..][..|tail|] == tail
    ensures NoSeparator([s[0]] + tail)
  {
    var h := [s[0]] + tail;
    assert h == s[..|h|];
    forall i | 0 <= i <= |h|
      ensures !SeparatorAt(h, i)
    {
      if i > 0 && SeparatorAt(h, i) {
        assert h[i..i + |Separator|] == tail[i - 1..i - 1 + |Separator|];
        assert SeparatorAt(tail, i - 1);
      }
    }
  }

  /** With no blank inside a field, a separator is where the fields meet. */
  lemma {:induction false} SplitFieldFirst(x: string, rest: string)
    requires NoBlank(x)
    ensures Split(x + Separator + rest) == [x] + Split(rest)
    decreases |x|
  {
    var s := x + Separator + rest;
    if x == [] {
      assert s == Separator + rest;
      assert s[..|Separator|] == Separator && s[|Separator|..] == rest;
    } else {
      assert s[0] == x[0] != ' ';
      assert s[..|Separator|] != Separator by { assert Separator[0] == ' '; }
      assert s[1..] == x[1..] + Separator + rest;
      SplitFieldFirst(x[1..], rest);
      assert [s[0]] + x[1..] == x;
    }
  }

  /** A string without blanks is a single part. */
  lemma {:induction false} SplitNoBlank(x: string)
    requires NoBlank(x)
    ensures Split(x) == [x]
    decreases |x|
  {
    if |x| >= |Separator| {
      assert x[..|Separator|] != Separator by { assert Separator[0] == ' '; }
      SplitNoBlank(x[1..]);
      assert [x[0]] + x[1..] == x;
    }
  }

  /** Three blank-free fields joined by the separator split back into those three. */
  lemma {:induction false} SplitThreeFields(a: string, b: string, c: string)
    requires NoBlank(a) && NoBlank(b) && NoBlank(c)
    ensures Split(a + Separator + b + Separator + c) == [a, b, c]
  {
    var bc := b + Separator + c;
    assert a + Separator + b + Separator + c == a + Separator + bc;
    SplitFieldFirst(a, bc);
    SplitFieldFirst(b, c);
    SplitNoBlank(c);
    assert [a] + ([b] + [c]) == [a, b, c];
  }

  // ---------------------------------------------------------------------
  // int(text), restricted to base-10 literals

  predicate IsDigit(c: char) { '0' <= c <= '9' }

  predicate AllDigits(t: string)
  {
    forall k :: 0 <= k < |t| ==> IsDigit(t[k])
  }

  function DigitValue(c: char): nat
    requires IsDigit(c)
  {
    (c as int) - ('0' as int)
  }

  function DigitChar(d: nat): (c: char)
    requires d < 10
    ensures IsDigit(c) && DigitValue(c) == d
  {
    (('0' as int) + d) as char
  }

  /** The value of a string of decimal digits, most significant first. */
  function DecimalValue(t: string): nat
    requires AllDigits(t)
  {
    if t == [] then 0 else DecimalValue(t[..|t| - 1]) * 10 + DigitValue(t[|t| - 1])
  }

  /** A base-10 integer literal: an optional `+` or `-`, then one or more ASCII digits. */
  predicate IsIntLiteral(t: string)
  {
    t != [] && (AllDigits(t) || ((t[0] == '-' || t[0] == '+') && |t| > 1 && AllDigits(t[1..])))
  }

  /**
   * `int(text)` for base-10 text: the whitespace `int()` skips around the
   * literal is ignored, an optional `+` or `-` sign is allowed, and at least
   * one digit must follow; leading zeros are allowed. Anything else is a
   * failure (Python raises `ValueError`).
   */
  function ParseInt(text: string): (r: Option<int>)
    ensures r.Some? <==> IsIntLiteral(Strip(IntWhitespace, text))
    ensures r.Some? && AllDigits(Strip(IntWhitespace, text)) ==> r.value == DecimalValue(Strip(IntWhitespace, text))
    ensures r.Some? && Strip(IntWhitespace, text)[0] == '+' ==> r.value == DecimalValue(Strip(IntWhitespace, text)[1..])
    ensures r.Some? && Strip(IntWhitespace, text)[0] == '-' ==> r.value == -(DecimalValue(Strip(IntWhitespace, text)[1..]) as int)
  {
    ParseLiteral(Strip(IntWhitespace, text))
  }

  /** The integer literal `t`, with nothing around it. */
  function ParseLiteral(t: string): (r: Option<int>)
    ensures r.Some? <==> IsIntLiteral(t)
    ensures r.Some? && AllDigits(t) ==> r.value == DecimalValue(t)
    ensures r.Some? && t[0] == '+' ==> r.value == DecimalValue(t[1..])
    ensures r.Some? && t[0] == '-' ==> r.value == -(DecimalValue(t[1..]) as int)
  {
    if t == [] then None
    else if t[0] == '-' || t[0] == '+' then
      var digits := t[1..];
      assert !IsDigit(t[0]);
      if digits != [] && AllDigits(digits) then
        Some(if t[0] == '-' then -(DecimalValue(digits) as int) else DecimalValue(digits))
      else None
    else if AllDigits(t) then Some(DecimalValue(t))
    else None
  }

  /** Leading zeros do not change the value of a string of digits. */
  lemma {:induction false} LeadingZeroValue(t: string)
    requires AllDigits(t)
    ensures AllDigits("0" + t) && DecimalValue("0" + t) == DecimalValue(t)
    decreases |t|
  {
    if t != [] {
      var z := "0" + t;
      assert z[..|z| - 1] == "0" + t[..|t| - 1];
      LeadingZeroValue(t[..|t| - 1]);
    }
  }

  /**
   * The forms of one number that `int()` accepts: a `+` sign and leading
   * zeros change nothing, a `-` sign negates.
   */
  lemma {:induction false} ParseLiteralForms(digits: string)
    requires digits != [] && AllDigits(digits)
    ensures ParseLiteral(digits) == Some(DecimalValue(digits) as int)
    ensures ParseLiteral("+" + digits) == ParseLiteral(digits)
    ensures ParseLiteral("-" + digits) == Some(-(DecimalValue(digits) as int))
    ensures ParseLiteral("0" + digits) == ParseLiteral(digits)
  {
    ParseDigits(digits);
    assert ("+" + digits)[1..] == digits;
    ParseSigned("-" + digits, digits);
    LeadingZeroValue(digits);
    ParseDigits("0" + digits);
  }

  /** The whitespace `int()` skips never changes what it makes of the text. */
  lemma {:induction false} ParseIntStrips(text: string)
    ensures ParseInt(Strip(IntWhitespace, text)) == ParseInt(text)
  {
    StripIdempotent(IntWhitespace, text);
  }

  /**
   * `int()` skips less than `str.strip()` removes: a reward field that
   * starts with U+001C is rejected although its strip is a literal.
   */
  lemma {:induction false} ParseIntKeepsSeparators()
    ensures Strip(StrWhitespace, "\U{001C}5") == "5" && IsIntLiteral("5")
    ensures ParseInt("\U{001C}5") == None
  {
    StripRemovesSeparator();
    IntRejectsSeparator();
    assert IsDigit("5"[0]);
  }

  lemma {:induction false} StripRemovesSeparator()
    ensures Strip(StrWhitespace, "\U{001C}5") == "5"
  {
    var t := "\U{001C}5";
    assert t[1..] == "5";
    assert TrimLeft(StrWhitespace, t) == "5";
    StripKeeps(StrWhitespace, "5");
  }

  lemma {:induction false} IntRejectsSeparator()
    ensures ParseInt("\U{001C}5") == None
  {
    var t := "\U{001C}5";
    StripKeeps(IntWhitespace, t);
    assert !IsIntLiteral(t) by { assert !IsDigit(t[0]); }
  }

  /** Decimal digits of `n` without leading zeros (`str(n)` for `n >= 0`). */
  function ShowNat(n: nat): (t: string)
    ensures t != [] && AllDigits(t)
  {
    if n < 10 then [DigitChar(n)] else ShowNat(n / 10) + [DigitChar(n % 10)]
  }

  /** `str(n)`. */
  function ShowInt(n: int): (t: string)
    ensures t != [] && NoBlank(t) && !IsSpace(t[0]) && !IsSpace(t[|t| - 1])
  {
    if n < 0 then "-" + ShowNat(-n) else ShowNat(n)
  }

  lemma {:induction false} ShowNatValue(n: nat)
    ensures DecimalValue(ShowNat(n)) == n
  {
    if n >= 10 {
      var t := ShowNat(n);
      assert t[..|t| - 1] == ShowNat(n / 10);
      ShowNatValue(n / 10);
    }
  }

  /** `int(str(n)) == n`. */
  lemma {:induction false} ParseShowInt(n: int)
    ensures ParseInt(ShowInt(n)) == Some(n)
  {
    var t := ShowInt(n);
    StripKeeps(IntWhitespace, t);
    if n < 0 {
      var digits := ShowNat(-n);
      assert t == ['-'] + digits;
      ParseSigned(t, digits);
    } else {
      ParseDigits(t);
    }
    ShowNatValue(if n < 0 then -n else n);
  }

  /** A minus sign and digits are the negated value of the digits. */
  lemma {:induction false} ParseSigned(t: string, digits: string)
    requires t == ['-'] + digits && digits != [] && AllDigits(digits)
    ensures ParseLiteral(t) == Some(-(DecimalValue(digits) as int))
  {
    assert t[1..] == digits;
  }

  /** Digits alone are their value. */
  lemma {:induction false} ParseDigits(t: string)
    requires t != [] && AllDigits(t)
    ensures ParseLiteral(t) == Some(DecimalValue(t))
  {
    assert IsDigit(t[0]);
  }
}
