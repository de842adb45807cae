/** The handful of Python string operations the engine relies on, written out: whitespace
    stripping, lower-casing of the Latin and basic Cyrillic letters, substring search, joining, splitting on one character,
    decimal rendering of integers and `int()` parsing. */
module Text {
  import opened Core

  /** `str.isspace()` for one character (the Unicode White_Space set Python uses). */
  predicate IsSpace(c: char) {
    var n := c as int;
    n == 0x20 || (0x09 <= n <= 0x0d) || (0x1c <= n <= 0x1f) || n == 0x85 || n == 0xa0
    || n == 0x1680 || (0x2000 <= n <= 0x200a) || n == 0x2028 || n == 0x2029
    || n == 0x202f || n == 0x205f || n == 0x3000
  }

  /** True when `str.strip()` would leave nothing: the text is empty or all whitespace. */
  predicate IsBlank(s: string) {
    forall i :: 0 <= i < |s| ==> IsSpace(s[i])
  }

  /** `str.lstrip()`. */
  function StripLeft(s: string): (r: string)
    ensures |r| <= |s| && r == s[|s| - |r|..]
    ensures forall i :: 0 <= i < |s| - |r| ==> IsSpace(s[i])
    ensures r == [] || !IsSpace(r[0])
  {
    if |s| > 0 && IsSpace(s[0]) then StripLeft(s[1..]) else s
  }

  /** `str.rstrip()`. */
  function StripRight(s: string): (r: string)
    ensures |r| <= |s| && r == s[..|r|]
    ensures forall i :: |r| <= i < |s| ==> IsSpace(s[i])
    ensures r == [] || !IsSpace(r[|r| - 1])
  {
    if |s| > 0 && IsSpace(s[|s| - 1]) then StripRight(s[..|s| - 1]) else s
  }

  /** `str.strip()`: the text between the first and the last non-whitespace character. */
  function Strip(s: string): (r: string)
    ensures r == [] || (!IsSpace(r[0]) && !IsSpace(r[|r| - 1]))
    ensures r == [] <==> IsBlank(s)
  {
    StripEnds(s);
    StripRight(StripLeft(s))
  }

  lemma StripEnds(s: string)
    ensures var r := StripRight(StripLeft(s));
            && (r == [] || (!IsSpace(r[0]) && !IsSpace(r[|r| - 1])))
            && (r == [] <==> IsBlank(s))
  {
    StripBlank(s);
    var t := StripLeft(s);
    var r := StripRight(t);
    if r != [] {
      assert r[0] == t[0];
    }
  }

  lemma {:induction false} StripBlank(s: string)
    ensures StripRight(StripLeft(s)) == [] <==> IsBlank(s)
  {
    if |s| > 0 && IsSpace(s[0]) {
      StripBlank(s[1..]);
      assert IsBlank(s) <==> IsBlank(s[1..]) by {
        assert forall j :: 0 <= j < |s| - 1 ==> s[1..][j] == s[j + 1];
      }
    } else {
      StripRightBlank(s);
    }
  }

  lemma StripRightBlank(t: string)
    ensures StripRight(t) == [] <==> IsBlank(t)
  {
    var r := StripRight(t);
    if r != [] {
      assert t[|r| - 1] == r[|r| - 1];
    }
  }

  /** `str.lower()` for one character, on the Basic Latin, Latin-1, Latin Extended-A and basic
      Cyrillic capitals; every other character is left as it is. */
  function LowerChar(c: char): (r: char)
    ensures IsUpper(c) <==> r != c
    ensures !IsUpper(r)
  {
    var n := c as int;
    if 'A' <= c <= 'Z' || (0xc0 <= n <= 0xde && n != 0xd7) || 0x410 <= n <= 0x42f then (n + 0x20) as char
    else if 0x400 <= n <= 0x40f then (n + 0x50) as char
    else if n == 0x178 then 0xff as char
    else if PairedCapital(n) then (n + 1) as char
    else c
  }

  /** The capitals of Latin Extended-A whose small letter is the next code point. U+0130 is left
      out: its lower case is two characters long. */
  predicate PairedCapital(n: int) {
    || (0x100 <= n <= 0x137 && n % 2 == 0 && n != 0x130)
    || (0x139 <= n <= 0x148 && n % 2 == 1)
    || (0x14a <= n <= 0x177 && n % 2 == 0)
    || (0x179 <= n <= 0x17e && n % 2 == 1)
  }

  /** The capitals `LowerChar` maps. */
  predicate IsUpper(c: char) {
    var n := c as int;
    || 'A' <= c <= 'Z' || (0xc0 <= n <= 0xde && n != 0xd7) || 0x400 <= n <= 0x42f
    || n == 0x178 || PairedCapital(n)
  }

  function Lower(s: string): (r: string)
    ensures |r| == |s|
    ensures forall i :: 0 <= i < |s| ==> r[i] == LowerChar(s[i])
  {
    seq(|s|, i requires 0 <= i < |s| => LowerChar(s[i]))
  }

  /** Python's `needle in hay` for strings. */
  predicate Contains(hay: string, needle: string) {
    exists i :: 0 <= i <= |hay| - |needle| && OccursAt(hay, needle, i)
  }

  predicate OccursAt(hay: string, needle: string, i: int) {
    0 <= i <= |hay| - |needle| && hay[i..i + |needle|] == needle
  }

  /** A text inside one part is inside the whole. */
  lemma ContainsInRight(a: string, b: string, x: string)
    requires Contains(b, x)
    ensures Contains(a + b, x)
  {
    var j :| 0 <= j <= |b| - |x| && OccursAt(b, x, j);
    assert (a + b)[|a| + j..|a| + j + |x|] == b[j..j + |x|];
    assert OccursAt(a + b, x, |a| + j);
  }

  lemma ContainsInLeft(a: string, b: string, x: string)
    requires Contains(a, x)
    ensures Contains(a + b, x)
  {
    var j :| 0 <= j <= |a| - |x| && OccursAt(a, x, j);
    assert (a + b)[j..j + |x|] == a[j..j + |x|];
    assert OccursAt(a + b, x, j);
  }

  lemma ContainsSelf(x: string)
    ensures Contains(x, x)
  {
    assert x[0..|x|] == x;
    assert OccursAt(x, x, 0);
  }

  /** Every part shows in the joined text. */
  lemma {:induction false} JoinShows(parts: seq<string>, sep: string, i: int)
    requires 0 <= i < |parts|
    ensures Contains(Join(parts, sep), parts[i])
  {
    if |parts| == 1 {
      ContainsSelf(parts[0]);
    } else if i == 0 {
      ContainsSelf(parts[0]);
      ContainsInLeft(parts[0], sep + Join(parts[1..], sep), parts[0]);
      assert parts[0] + sep + Join(parts[1..], sep) == parts[0] + (sep + Join(parts[1..], sep));
    } else {
      JoinShows(parts[1..], sep, i - 1);
      ContainsInRight(parts[0] + sep, Join(parts[1..], sep), parts[i]);
    }
  }

  /** `ch * n`. */
  function Repeat(c: char, n: nat): (r: string)
    ensures |r| == n
    ensures forall i :: 0 <= i < n ==> r[i] == c
  {
    seq(n, _ => c)
  }

  /** `sep.join(parts)`. */
  function Join(parts: seq<string>, sep: string): (r: string)
    ensures parts == [] ==> r == []
    ensures |parts| == 1 ==> r == parts[0]
  {
    if parts == [] then []
    else if |parts| == 1 then parts[0]
    else parts[0] + sep + Join(parts[1..], sep)
  }

  /** Number of occurrences of `c` in `s`. */
  function Count(s: string, c: char): nat {
    if s == [] then 0 else (if s[0] == c then 1 else 0) + Count(s[1..], c)
  }

  lemma {:induction false} CountAppend(a: string, b: string, c: char)
    ensures Count(a + b, c) == Count(a, c) + Count(b, c)
  {
    if a != [] {
      assert (a + b)[1..] == a[1..] + b;
      CountAppend(a[1..], b, c);
    } else {
      assert a + b == b;
    }
  }

  /** `s.split(sep)` for a one-character separator: always at least one part; consecutive
      separators give empty parts. */
  function Split(s: string, sep: char): (parts: seq<string>)
    ensures |parts| >= 1
    ensures forall i, j :: 0 <= i < |parts| && 0 <= j < |parts[i]| ==> parts[i][j] != sep
  {
    if s == [] then [[]]
    else
      var rest := Split(s[1..], sep);
      if s[0] == sep then [[]] + rest else [[s[0]] + rest[0]] + rest[1..]
  }

  /** Splitting yields one part more than there are separators. */
  lemma {:induction false} SplitCount(s: string, sep: char)
    ensures |Split(s, sep)| == Count(s, sep) + 1
  {
    if s != [] {
      SplitCount(s[1..], sep);
    }
  }

  /** Joining the parts with the separator rebuilds the text. */
  lemma {:induction false} SplitJoin(s: string, sep: char)
    ensures Join(Split(s, sep), [sep]) == s
  {
    if s != [] {
      var rest := Split(s[1..], sep);
      SplitJoin(s[1..], sep);
      if s[0] == sep {
        assert Split(s, sep) == [[]] + rest;
        assert ([[]] + rest)[1..] == rest;
      } else {
        var parts := Split(s, sep);
        assert parts == [[s[0]] + rest[0]] + rest[1..];
        if |rest| == 1 {
          assert Join(rest, [sep]) == rest[0];
        } else {
          assert parts[1..] == rest[1..];
          assert Join(rest, [sep]) == rest[0] + [sep] + Join(rest[1..], [sep]);
        }
      }
    }
  }

  /** Splitting text that holds no separator gives the text as its only part. */
  lemma {:induction false} SplitNoSep(s: string, sep: char)
    requires forall i :: 0 <= i < |s| ==> s[i] != sep
    ensures Split(s, sep) == [s]
  {
    if s != [] {
      SplitNoSep(s[1..], sep);
      assert [s[0]] + s[1..] == s;
    }
  }

  /** Splitting `a + [sep] + b`, where `a` holds no separator, gives `a` and the parts of `b`. */
  lemma {:induction false} SplitAtFirst(a: string, b: string, sep: char)
    requires forall i :: 0 <= i < |a| ==> a[i] != sep
    ensures Split(a + [sep] + b, sep) == [a] + Split(b, sep)
  {
    if a == [] {
      assert a + [sep] + b == [sep] + b;
      assert ([sep] + b)[1..] == b;
    } else {
      var s := a + [sep] + b;
      assert s[1..] == a[1..] + [sep] + b;
      SplitAtFirst(a[1..], b, sep);
      assert [a[0]] + a[1..] == a;
    }
  }

  predicate IsDigit(c: char) {
    '0' <= c <= '9'
  }

  function DigitValue(c: char): (d: nat)
    requires IsDigit(c)
    ensures d < 10
  {
    c as int - '0' as int
  }

  function DigitChar(d: nat): (c: char)
    requires d < 10
    ensures IsDigit(c)
  {
    ('0' as int + d) as char
  }

  /** Decimal digits of a natural number, most significant first, no leading zeros. */
  function NatToString(n: nat): (r: string)
    ensures |r| >= 1
    ensures forall i :: 0 <= i < |r| ==> IsDigit(r[i])
  {
    if n < 10 then [DigitChar(n)] else NatToString(n / 10) + [DigitChar(n % 10)]
  }

  /** `str(i)` for an integer. */
  function IntToString(i: int): string {
    if i < 0 then "-" + NatToString(-i) else NatToString(i)
  }

  /** Decimal digits with single underscores between them, as `int()` accepts them. */
  predicate DigitRun(s: string) {
    && |s| >= 1
    && (forall i :: 0 <= i < |s| ==> IsDigit(s[i]) || s[i] == '_')
    && IsDigit(s[0]) && IsDigit(s[|s| - 1])
    && (forall i :: 0 <= i < |s| - 1 ==> !(s[i] == '_' && s[i + 1] == '_'))
  }

  /** Value of a run of digits and underscores read left to right; underscores are skipped. */
  function DigitsValue(s: string): nat
    requires forall i :: 0 <= i < |s| ==> IsDigit(s[i]) || s[i] == '_'
  {
    if s == [] then 0
    else if s[|s| - 1] == '_' then DigitsValue(s[..|s| - 1])
    else DigitsValue(s[..|s| - 1]) * 10 + DigitValue(s[|s| - 1])
  }

  /** `int(s)` for a string in base 10: surrounding whitespace, an optional sign, then a digit
      run. `None` stands for the ValueError. */
  function ParseInt(s: string): (r: Option<int>)
    ensures r.Some? ==> !IsBlank(s)
  {
    var t := Strip(s);
    if t == [] then None
    else
      var negative := t[0] == '-';
      var body := Unsigned(t);
      if !DigitRun(body) then None
      else
        var v: int := DigitsValue(body);
        Some(if negative then -v else v)
  }

  /** `int()` accepts exactly the texts that are not blank and whose stripped form is a digit
      run after at most one sign, and reads them as the signed value of the digits. */
  lemma ParseIntSpec(s: string)
    ensures ParseInt(s).Some? <==> !IsBlank(s) && DigitRun(Unsigned(Strip(s)))
    ensures ParseInt(s).Some? ==> ParseInt(s).value == if Strip(s)[0] == '-' then -(DigitsValue(Unsigned(Strip(s))) as int) else DigitsValue(Unsigned(Strip(s)))
  {
  }

  /** The text after one leading sign, if there is one. */
  function Unsigned(t: string): (r: string)
  {
    if t != [] && (t[0] == '-' || t[0] == '+') then t[1..] else t
  }

  /** At most one character is dropped, from the front, and it is dropped exactly when it is a
      sign. */
  lemma UnsignedDropsOneSign(t: string)
    ensures var r := Unsigned(t);
            |t| - 1 <= |r| <= |t| && r == t[|t| - |r|..] && (|r| < |t| <==> t != [] && (t[0] == '-' || t[0] == '+'))
  {
  }

  /** `int()` reads whitespace, an optional sign and a digit run as the signed value of the
      digits; this fixes its result on every string of that form. */
  lemma ParseIntReads(lead: string, sign: string, body: string, trail: string)
    requires IsBlank(lead) && IsBlank(trail)
    requires sign == "" || sign == "+" || sign == "-"
    requires DigitRun(body)
    ensures ParseInt(lead + sign + body + trail) == Some(if sign == "-" then -(DigitsValue(body) as int) else DigitsValue(body))
  {
    SignedStrip(lead, sign, body, trail);
    SignedBody(sign, body);
    ParseStripped(lead + sign + body + trail, sign + body, body, sign == "-");
  }

  lemma SignedBody(sign: string, body: string)
    requires sign == "" || sign == "+" || sign == "-"
    requires DigitRun(body)
    ensures var t := sign + body; t != [] && Unsigned(t) == body && (t[0] == '-' <==> sign == "-")
  {
    var t := sign + body;
    if sign == "" {
      assert t == body;
    } else {
      assert t[1..] == body;
    }
  }

  lemma ParseStripped(x: string, t: string, body: string, negative: bool)
    requires Strip(x) == t && t != [] && Unsigned(t) == body && DigitRun(body)
    requires t[0] == '-' <==> negative
    ensures ParseInt(x) == Some(if negative then -(DigitsValue(body) as int) else DigitsValue(body))
  {
  }

  lemma SignedStrip(lead: string, sign: string, body: string, trail: string)
    requires IsBlank(lead) && IsBlank(trail)
    requires sign == "" || sign == "+" || sign == "-"
    requires DigitRun(body)
    ensures Strip(lead + sign + body + trail) == sign + body
  {
    var t := sign + body;
    assert t[|t| - 1] == body[|body| - 1];
    assert t[0] == if sign == "" then body[0] else sign[0];
    assert lead + sign + body + trail == lead + (t + trail);
    StripAround(lead, t, trail);
  }

  /** Stripping blanks off both sides of a text with non-blank ends gives the text. */
  lemma StripAround(lead: string, t: string, trail: string)
    requires IsBlank(lead) && IsBlank(trail)
    requires t != [] && !IsSpace(t[0]) && !IsSpace(t[|t| - 1])
    ensures Strip(lead + (t + trail)) == t
  {
    StripLeftLead(lead, t + trail);
    StripRightTrail(t, trail);
  }

  lemma {:induction false} StripLeftLead(lead: string, u: string)
    requires IsBlank(lead) && u != [] && !IsSpace(u[0])
    ensures StripLeft(lead + u) == u
  {
    if lead != [] {
      assert (lead + u)[1..] == lead[1..] + u;
      StripLeftLead(lead[1..], u);
    }
  }

  lemma {:induction false} StripRightTrail(t: string, trail: string)
    requires IsBlank(trail) && t != [] && !IsSpace(t[|t| - 1])
    ensures StripRight(t + trail) == t
  {
    if trail != [] {
      var w := trail[..|trail| - 1];
      assert (t + trail)[..|t + trail| - 1] == t + w;
      StripRightTrail(t, w);
    } else {
      assert t + trail == t;
    }
  }

  lemma {:induction false} DigitsValueZeros(k: nat, s: string)
    requires forall i :: 0 <= i < |s| ==> IsDigit(s[i]) || s[i] == '_'
    ensures forall i :: 0 <= i < |Repeat('0', k) + s| ==> IsDigit((Repeat('0', k) + s)[i]) || (Repeat('0', k) + s)[i] == '_'
    ensures DigitsValue(Repeat('0', k) + s) == DigitsValue(s)
  {
    var z := Repeat('0', k);
    if s == [] {
      assert z + s == z;
      ZerosValue(k);
    } else {
      assert (z + s)[..|z + s| - 1] == z + s[..|s| - 1];
      DigitsValueZeros(k, s[..|s| - 1]);
    }
  }

  lemma {:induction false} ZerosValue(k: nat)
    ensures DigitsValue(Repeat('0', k)) == 0
  {
    if k > 0 {
      assert Repeat('0', k)[..k - 1] == Repeat('0', k - 1);
      ZerosValue(k - 1);
    }
  }

  lemma {:induction false} NatToStringValue(n: nat)
    ensures DigitsValue(NatToString(n)) == n
  {
    if n >= 10 {
      var s := NatToString(n);
      assert s[..|s| - 1] == NatToString(n / 10);
      NatToStringValue(n / 10);
    }
  }

  /** `int()` reads back the digits of a natural number, with any number of leading zeros. */
  lemma ParseZeroPadded(k: nat, n: nat)
    ensures ParseInt(Repeat('0', k) + NatToString(n)) == Some(n)
  {
    var s := Repeat('0', k) + NatToString(n);
    assert forall i :: 0 <= i < |s| ==> IsDigit(s[i]);
    ParseDigits(s);
    DigitsValueZeros(k, NatToString(n));
    NatToStringValue(n);
  }

  /** `int(str(n))` gives `n` back. */
  lemma ParseDecimal(n: nat)
    ensures ParseInt(NatToString(n)) == Some(n)
  {
    ParseDigits(NatToString(n));
    NatToStringValue(n);
  }

  /** `int()` of a non-empty string of ASCII digits is its decimal value. */
  lemma ParseDigits(s: string)
    requires |s| >= 1 && forall i :: 0 <= i < |s| ==> IsDigit(s[i])
    ensures ParseInt(s) == Some(DigitsValue(s) as int)
  {
    StripDigits(s);
    assert DigitRun(s);
  }

  /** Stripping leaves a digit string as it is. */
  lemma StripDigits(s: string)
    requires |s| >= 1 && forall i :: 0 <= i < |s| ==> IsDigit(s[i])
    ensures Strip(s) == s
  {
    assert StripLeft(s) == s;
    assert StripRight(s) == s;
  }
}
