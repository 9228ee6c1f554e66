/** The pieces of Python's `str` behaviour the tracker and the monitor rely on:
    case mapping, `isspace`/`strip`, the `in` substring test, `split('\n')`,
    `readlines()` and the `int()`/`str()` conversions of base-10 integers. */
module PyText {
  import opened Base

  // ---------------------------------------------------------------------
  // Characters

  /** `c.isspace()`: the whitespace set shared by `str.strip()` and the
      regular-expression class `\s` on text patterns. */
  predicate IsSpace(c: char) {
    || c == ' '
    || ('\t' <= c <= '\r')
    || ('\U{1c}' <= c <= '\U{1f}')
    || c == '\U{85}' || c == '\U{a0}' || c == '\U{1680}'
    || ('\U{2000}' <= c <= '\U{200a}')
    || c == '\U{2028}' || c == '\U{2029}' || c == '\U{202f}'
    || c == '\U{205f}' || c == '\U{3000}'
  }

  predicate IsDigit(c: char) {
    '0' <= c <= '9'
  }

  /** Membership in the regular-expression class `[a-z0-9]`. */
  predicate IsLowerAlnum(c: char) {
    ('a' <= c <= 'z') || IsDigit(c)
  }

  function DigitValue(c: char): (d: nat)
    requires IsDigit(c)
    ensures d < 10
  {
    c as int - '0' as int
  }

  function DigitChar(d: nat): (c: char)
    requires d < 10
    ensures IsDigit(c) && DigitValue(c) == d
  {
    ('0' as int + d) as char
  }

  function LowerChar(c: char): (l: char)
    ensures 'A' <= c <= 'Z' ==> 'a' <= l <= 'z' && l as int == c as int + 32
    ensures !('A' <= c <= 'Z') ==> l == c
  {
    if 'A' <= c <= 'Z' then (c as int + 32) as char else c
  }

  function UpperChar(c: char): (u: char)
    ensures 'a' <= c <= 'z' ==> 'A' <= u <= 'Z' && u as int + 32 == c as int
    ensures !('a' <= c <= 'z') ==> u == c
  {
    if 'a' <= c <= 'z' then (c as int - 32) as char else c
  }

  /** `s.lower()`, restricted to the ASCII letters. */
  function Lower(s: string): (r: string)
    ensures |r| == |s|
    ensures forall i :: 0 <= i < |s| ==> r[i] == LowerChar(s[i])
  {
    seq(|s|, i requires 0 <= i < |s| => LowerChar(s[i]))
  }

  /** `s.upper()`, restricted to the ASCII letters. */
  function Upper(s: string): (r: string)
    ensures |r| == |s|
    ensures forall i :: 0 <= i < |s| ==> r[i] == UpperChar(s[i])
  {
    seq(|s|, i requires 0 <= i < |s| => UpperChar(s[i]))
  }

  // ---------------------------------------------------------------------
  // Substrings

  /** `w` occurs in `s` starting at index `i`. */
  predicate OccursAt(s: string, w: string, i: int) {
    0 <= i && i + |w| <= |s| && s[i..i + |w|] == w
  }

  /** `s.find(w, from)`: the first occurrence of `w` at or after `from`. */
  function Find(s: string, w: string, from: nat): (r: Option<nat>)
    decreases |s| - from
    ensures r.Some? ==> from <= r.value && OccursAt(s, w, r.value)
    ensures r.Some? ==> forall j :: from <= j < r.value ==> !OccursAt(s, w, j)
    ensures r.None? ==> forall j :: from <= j ==> !OccursAt(s, w, j)
  {
    if from + |w| > |s| then None
    else if s[from..from + |w|] == w then Some(from)
    else Find(s, w, from + 1)
  }

  /** Python's `w in s`. */
  predicate Contains(s: string, w: string) {
    Find(s, w, 0).Some?
  }

  lemma ContainsMeansOccurs(s: string, w: string)
    ensures Contains(s, w) <==> exists i :: OccursAt(s, w, i)
  {
    if !Contains(s, w) {
      forall i ensures !OccursAt(s, w, i) {
        if 0 <= i { assert 0 <= i; }
      }
    }
  }

  // ---------------------------------------------------------------------
  // Whitespace stripping

  predicate IsBlank(s: string) {
    forall i :: 0 <= i < |s| ==> IsSpace(s[i])
  }

  function StripLeft(s: string): (r: string)
    ensures |r| <= |s| && r == s[|s| - |r|..]
    ensures forall i :: 0 <= i < |s| - |r| ==> IsSpace(s[i])
    ensures |r| > 0 ==> !IsSpace(r[0])
  {
    if |s| > 0 && IsSpace(s[0]) then StripLeft(s[1..]) else s
  }

  function StripRight(s: string): (r: string)
    ensures |r| <= |s| && r == s[..|r|]
    ensures forall i :: |r| <= i < |s| ==> IsSpace(s[i])
    ensures |r| > 0 ==> !IsSpace(r[|r| - 1])
  {
    if |s| > 0 && IsSpace(s[|s| - 1]) then StripRight(s[..|s| - 1]) else s
  }

  /** `s.strip()`: drops the leading and trailing whitespace. */
  function Strip(s: string): (r: string)
    ensures |r| > 0 ==> !IsSpace(r[0]) && !IsSpace(r[|r| - 1])
  {
    StripRight(StripLeft(s))
  }

  /** `not s.strip()` holds exactly of the all-whitespace strings. */
  lemma {:induction false} StripEmptyIffBlank(s: string)
    ensures Strip(s) == [] <==> IsBlank(s)
  {
    var l := StripLeft(s);
    var d := |s| - |l|;
    if IsBlank(s) {
    } else {
      var k :| 0 <= k < |s| && !IsSpace(s[k]);
      assert k >= d;
      assert l[k - d] == s[k];
      var r := StripRight(l);
      assert |r| > k - d;
    }
  }

  /** A string that neither starts nor ends with whitespace is its own strip. */
  lemma StripUntrimmed(s: string)
    requires |s| > 0 && !IsSpace(s[0]) && !IsSpace(s[|s| - 1])
    ensures Strip(s) == s
  {
  }

  // ---------------------------------------------------------------------
  // Splitting

  /** `s.split('\n')`: the pieces between newline characters; always at least one. */
  function SplitLines(s: string): (r: seq<string>)
    ensures |r| >= 1
    ensures forall k :: 0 <= k < |r| ==> '\n' !in r[k]
  {
    if |s| == 0 then [""]
    else
      var rest := SplitLines(s[1..]);
      if s[0] == '\n' then [""] + rest
      else [[s[0]] + rest[0]] + rest[1..]
  }

  /** `'\n'.join(pieces)` */
  function JoinLines(pieces: seq<string>): string
    requires |pieces| >= 1
  {
    if |pieces| == 1 then pieces[0] else pieces[0] + "\n" + JoinLines(pieces[1..])
  }

  /** Splitting on newlines and joining with newlines gives the text back. */
  lemma {:induction false} SplitJoin(s: string)
    ensures JoinLines(SplitLines(s)) == s
  {
    if |s| > 0 {
      var rest := SplitLines(s[1..]);
      SplitJoin(s[1..]);
      if s[0] == '\n' {
        assert SplitLines(s)[1..] == rest;
      } else if |rest| == 1 {
        assert SplitLines(s) == [[s[0]] + rest[0]];
      } else {
        var r := SplitLines(s);
        assert r[1..] == rest[1..];
        calc {
          JoinLines(r);
          r[0] + "\n" + JoinLines(rest[1..]);
          [s[0]] + (rest[0] + "\n" + JoinLines(rest[1..]));
          [s[0]] + s[1..];
        }
      }
    }
  }

  /** `f.readlines()` on a text stream holding `s`: every line keeps its
      terminating newline; only the last one may lack it. */
  function ReadLines(s: string): (r: seq<string>)
    ensures |s| > 0 <==> |r| > 0
    ensures forall k :: 0 <= k < |r| ==> |r[k]| > 0
  {
    if |s| == 0 then []
    else
      var rest := ReadLines(s[1..]);
      if s[0] == '\n' || |rest| == 0 then [[s[0]]] + rest
      else [[s[0]] + rest[0]] + rest[1..]
  }

  function Concat(lines: seq<string>): string {
    if |lines| == 0 then [] else lines[0] + Concat(lines[1..])
  }

  /** A line of `readlines()` holds a newline only as its last character. */
  predicate IsLine(l: string) {
    |l| > 0 && forall i :: 0 <= i < |l| - 1 ==> l[i] != '\n'
  }

  /** `readlines()` loses nothing and invents nothing: its lines concatenate
      back to the text, each is a line, and all but the last end in a newline. */
  lemma {:induction false} ReadLinesPartition(s: string)
    ensures Concat(ReadLines(s)) == s
    ensures forall k :: 0 <= k < |ReadLines(s)| ==> IsLine(ReadLines(s)[k])
    ensures forall k :: 0 <= k < |ReadLines(s)| - 1 ==> ReadLines(s)[k][|ReadLines(s)[k]| - 1] == '\n'
  {
    ReadLinesConcat(s);
    ReadLinesAreLines(s);
  }

  lemma {:induction false} ReadLinesConcat(s: string)
    ensures Concat(ReadLines(s)) == s
  {
    if |s| > 0 {
      var rest := ReadLines(s[1..]);
      ReadLinesConcat(s[1..]);
      var r := ReadLines(s);
      if s[0] == '\n' || |rest| == 0 {
        assert r[1..] == rest;
        assert Concat(r) == [s[0]] + Concat(rest);
      } else {
        assert r[1..] == rest[1..];
        assert Concat(rest) == rest[0] + Concat(rest[1..]);
        assert Concat(r) == ([s[0]] + rest[0]) + Concat(rest[1..]);
      }
    }
  }

  lemma {:induction false} ReadLinesAreLines(s: string)
    ensures forall k :: 0 <= k < |ReadLines(s)| ==> IsLine(ReadLines(s)[k])
    ensures forall k :: 0 <= k < |ReadLines(s)| - 1 ==> ReadLines(s)[k][|ReadLines(s)[k]| - 1] == '\n'
  {
    if |s| > 0 {
      var rest := ReadLines(s[1..]);
      ReadLinesAreLines(s[1..]);
      var r := ReadLines(s);
      if s[0] == '\n' || |rest| == 0 {
        assert r[1..] == rest;
      } else {
        assert r[1..] == rest[1..];
        assert rest[0][|rest[0]| - 1] == '\n' || |rest| == 1;
        forall i | 0 <= i < |r[0]| - 1 ensures r[0][i] != '\n' {
          if i > 0 { assert r[0][i] == rest[0][i - 1]; }
        }
      }
    }
  }

  // ---------------------------------------------------------------------
  // Base-10 integers: `str(n)` and `int(s)`

  /** `str(n)` for `n >= 0`. */
  function NatToString(n: nat): (r: string)
    ensures |r| > 0 && IsDigit(r[0]) && IsDigit(r[|r| - 1])
    ensures forall i :: 0 <= i < |r| ==> IsDigit(r[i])
  {
    if n < 10 then [DigitChar(n)] else NatToString(n / 10) + [DigitChar(n % 10)]
  }

  /** `str(n)`. */
  function IntToString(n: int): (r: string)
    ensures |r| > 0 && !IsSpace(r[0]) && IsDigit(r[|r| - 1])
  {
    if n < 0 then "-" + NatToString(-n) else NatToString(n)
  }

  /** The digits of `int()`'s grammar after the sign: `\d+(_\d+)*`,
      that is, single underscores allowed between digits. */
  function ParseDigitGroups(t: string): (r: Option<nat>)
    decreases |t|
  {
    if |t| == 0 || !IsDigit(t[|t| - 1]) then None
    else
      var init := t[..|t| - 1];
      var d := DigitValue(t[|t| - 1]);
      if |init| == 0 then Some(d)
      else if IsDigit(init[|init| - 1]) then
        match ParseDigitGroups(init)
        case Some(v) => Some(10 * v + d)
        case None => None
      else if init[|init| - 1] == '_' && |init| >= 2 && IsDigit(init[|init| - 2]) then
        match ParseDigitGroups(init[..|init| - 1])
        case Some(v) => Some(10 * v + d)
        case None => None
      else None
  }

  /** Position `i` of `t` holds a digit, or an underscore between two digits. */
  predicate GroupCharAt(t: string, i: int)
    requires 0 <= i < |t|
  {
    IsDigit(t[i]) || (t[i] == '_' && 0 < i < |t| - 1 && IsDigit(t[i - 1]) && IsDigit(t[i + 1]))
  }

  /** `\d+(_\d+)*` as a property of the text: digits throughout, except
      underscores each standing between two digits. */
  predicate DigitGroups(t: string) {
    |t| > 0 && forall i :: 0 <= i < |t| ==> GroupCharAt(t, i)
  }

  /** The digit-group parser accepts exactly the digit-group texts. */
  lemma {:induction false} DigitGroupsIff(t: string)
    decreases |t|
    ensures ParseDigitGroups(t).Some? <==> DigitGroups(t)
  {
    if |t| == 0 {
    } else if !IsDigit(t[|t| - 1]) {
      assert !GroupCharAt(t, |t| - 1);
    } else {
      var init := t[..|t| - 1];
      if |init| == 0 {
      } else if IsDigit(init[|init| - 1]) {
        DigitGroupsIff(init);
        DigitGroupsSnoc(init, t[|t| - 1]);
        assert t == init + [t[|t| - 1]];
      } else if init[|init| - 1] == '_' && |init| >= 2 && IsDigit(init[|init| - 2]) {
        var u := init[..|init| - 1];
        DigitGroupsIff(u);
        DigitGroupsSnoc2(u, t[|t| - 1]);
        assert t == u + ['_', t[|t| - 1]];
      } else {
        var i := |t| - 2;
        assert t[i] == init[|init| - 1];
        assert i > 0 ==> t[i - 1] == init[|init| - 2];
        assert !GroupCharAt(t, i);
      }
    }
  }

  /** A digit after a text ending in a digit. */
  lemma DigitGroupsSnoc(u: string, c: char)
    requires |u| > 0 && IsDigit(u[|u| - 1]) && IsDigit(c)
    ensures DigitGroups(u + [c]) <==> DigitGroups(u)
  {
    var t := u + [c];
    forall i | 0 <= i < |u| ensures GroupCharAt(t, i) <==> GroupCharAt(u, i) {
      assert t[i] == u[i];
      if 0 < i { assert t[i - 1] == u[i - 1]; }
      if i < |u| - 1 { assert t[i + 1] == u[i + 1]; }
    }
    assert GroupCharAt(t, |u|);
  }

  /** An underscore and a digit after a text ending in a digit. */
  lemma DigitGroupsSnoc2(u: string, c: char)
    requires |u| > 0 && IsDigit(u[|u| - 1]) && IsDigit(c)
    ensures DigitGroups(u + ['_', c]) <==> DigitGroups(u)
  {
    var t := u + ['_', c];
    forall i | 0 <= i < |u| ensures GroupCharAt(t, i) <==> GroupCharAt(u, i) {
      assert t[i] == u[i];
      if 0 < i { assert t[i - 1] == u[i - 1]; }
      if i < |u| - 1 { assert t[i + 1] == u[i + 1]; }
    }
    assert GroupCharAt(t, |u|) && GroupCharAt(t, |u| + 1);
  }

  predicate IsSignChar(c: char) {
    c == '+' || c == '-'
  }

  /** A text with its leading sign, if any, removed. */
  function Unsigned(t: string): string {
    if |t| > 0 && IsSignChar(t[0]) then t[1..] else t
  }

  /** An optional sign followed by digit groups, with nothing around them. */
  function ParseSigned(t: string): (r: Option<int>)
    ensures r.Some? <==> DigitGroups(Unsigned(t))
    ensures r.Some? && r.value < 0 ==> t[0] == '-'
    ensures r.Some? ==> exists i :: 0 <= i < |t| && IsDigit(t[i])
  {
    var signed := |t| > 0 && IsSignChar(t[0]);
    var body := Unsigned(t);
    DigitGroupsIff(body);
    match ParseDigitGroups(body)
    case None => None
    case Some(v) =>
      ParsedHasDigit(body);
      assert exists i :: 0 <= i < |t| && IsDigit(t[i]) by {
        var i :| 0 <= i < |body| && IsDigit(body[i]);
        assert t[if signed then i + 1 else i] == body[i];
      }
      Some(if signed && t[0] == '-' then -(v as int) else v)
  }

  /** `int(s)` with base 10: surrounding whitespace, an optional sign, then
      digit groups; `None` stands for the `ValueError` it raises otherwise. */
  function ParseInt(s: string): (r: Option<int>)
    ensures r.Some? <==> DigitGroups(Unsigned(Strip(s)))
    ensures r.Some? && r.value < 0 ==> Strip(s)[0] == '-'
    ensures r.Some? ==> exists i :: 0 <= i < |s| && IsDigit(s[i])
  {
    var t := Strip(s);
    var r := ParseSigned(t);
    if r.Some? then
      assert exists i :: 0 <= i < |s| && IsDigit(s[i]) by {
        var i :| 0 <= i < |t| && IsDigit(t[i]);
        assert s[StripOffset(s) + i] == t[i];
      }
      r
    else r
  }

  lemma ParsedHasDigit(t: string)
    requires ParseDigitGroups(t).Some?
    ensures exists i :: 0 <= i < |t| && IsDigit(t[i])
  {
    assert IsDigit(t[|t| - 1]);
  }

  /** Where `s.strip()` starts inside `s`. */
  function StripOffset(s: string): (a: nat)
    ensures a + |Strip(s)| <= |s| && Strip(s) == s[a..a + |Strip(s)|]
  {
    var l := StripLeft(s);
    var a := |s| - |l|;
    var r := StripRight(l);
    assert r == Strip(s);
    assert r == l[..|r|];
    assert l == s[a..];
    assert s[a..][..|r|] == s[a..a + |r|];
    a
  }

  /** Reading back what `str(n)` wrote, for a natural number. */
  lemma {:induction false} DigitGroupsOfNatToString(n: nat)
    ensures ParseDigitGroups(NatToString(n)) == Some(n)
  {
    if n >= 10 {
      DigitGroupsOfNatToString(n / 10);
      var t := NatToString(n);
      assert t[..|t| - 1] == NatToString(n / 10);
    }
  }

  /** `int(str(n)) == n` for every integer. */
  lemma {:induction false} ParseIntOfIntToString(n: int)
    ensures ParseInt(IntToString(n)) == Some(n)
  {
    var s := IntToString(n);
    StripUntrimmed(s);
    SignedOfIntToString(n);
  }

  /** `int()` reads a natural number written with an optional sign and
      whitespace on either side. */
  lemma ParseIntPadded(before: string, sign: string, n: nat, after: string)
    requires IsBlank(before) && IsBlank(after)
    requires sign == "" || sign == "+" || sign == "-"
    ensures ParseInt(before + sign + NatToString(n) + after) == Some(if sign == "-" then -(n as int) else n)
  {
    var t := sign + NatToString(n);
    var s := before + t + after;
    AppendMiddle(before, sign, NatToString(n), after);
    assert Strip(s) == t by {
      StripPadded(before, t, after);
    }
    assert ParseSigned(t) == Some(if sign == "-" then -(n as int) else n) by {
      SignedOfNat(sign, n);
    }
    assert ParseInt(s) == ParseSigned(Strip(s));
  }

  lemma SignedOfNat(sign: string, n: nat)
    requires sign == "" || sign == "+" || sign == "-"
    ensures ParseSigned(sign + NatToString(n)) == Some(if sign == "-" then -(n as int) else n)
  {
    DigitGroupsOfNatToString(n);
    assert Unsigned(sign + NatToString(n)) == NatToString(n);
  }

  lemma AppendMiddle(a: string, b: string, c: string, d: string)
    ensures a + b + c + d == a + (b + c) + d
  {
  }

  /** Stripping removes whitespace padding and nothing else. */
  lemma StripPadded(before: string, t: string, after: string)
    requires IsBlank(before) && IsBlank(after)
    requires |t| > 0 && !IsSpace(t[0]) && !IsSpace(t[|t| - 1])
    ensures Strip(before + t + after) == t
  {
    var x := t + after;
    assert before + t + after == before + x;
    assert StripLeft(before + x) == x by {
      StripLeftBlank(before, x);
    }
    assert StripRight(x) == t by {
      StripRightBlank(t, after);
    }
  }

  lemma {:induction false} StripLeftBlank(ws: string, x: string)
    requires IsBlank(ws) && |x| > 0 && !IsSpace(x[0])
    ensures StripLeft(ws + x) == x
  {
    if |ws| > 0 {
      StripLeftBlank(ws[1..], x);
      assert (ws + x)[1..] == ws[1..] + x;
    }
  }

  lemma {:induction false} StripRightBlank(x: string, ws: string)
    requires IsBlank(ws) && |x| > 0 && !IsSpace(x[|x| - 1])
    ensures StripRight(x + ws) == x
  {
    if |ws| > 0 {
      StripRightBlank(x, ws[..|ws| - 1]);
      assert (x + ws)[..|x + ws| - 1] == x + ws[..|ws| - 1];
    }
  }

  lemma SignedOfIntToString(n: int)
    ensures ParseSigned(IntToString(n)) == Some(n)
  {
    var s := IntToString(n);
    if n < 0 {
      DigitGroupsOfNatToString(-n);
      assert Unsigned(s) == NatToString(-n);
    } else {
      DigitGroupsOfNatToString(n);
      assert Unsigned(s) == NatToString(n);
    }
  }
}
