/** The string form of a date key in the state file: `YYYY-MM-DD`, written by
    `_serialize_date_key` and read back by `_deserialize_date_key`. */
module DateKeys {
  import opened Core
  import opened Text

  /** Left-pads a digit string with zeros up to `width` (no padding when already as wide). */
  function ZeroPad(digits: string, width: nat): (r: string)
    ensures |r| == if |digits| >= width then |digits| else width
  {
    Repeat('0', if |digits| >= width then 0 else width - |digits|) + digits
  }

  /** Python's `f"{n:0{width}d}"`: the sign counts toward the width. */
  function FormatPadded(n: int, width: nat): (r: string)
    ensures n >= 0 ==> forall i :: 0 <= i < |r| ==> IsDigit(r[i])
    ensures n < 0 ==> |r| >= 1 && r[0] == '-'
  {
    if n < 0 then "-" + ZeroPad(NatToString(-n), if width > 0 then width - 1 else 0)
    else ZeroPad(NatToString(n), width)
  }

  /** `_serialize_date_key`. */
  function Serialize(k: DateKey): string {
    FormatPadded(k.year, 4) + "-" + FormatPadded(k.month, 2) + "-" + FormatPadded(k.day, 2)
  }

  /** `_deserialize_date_key`: exactly three `-`-separated parts, each accepted by `int()`. */
  function Deserialize(key: string): (r: Option<DateKey>)
    ensures r.Some? ==> |Split(key, '-')| == 3
  {
    var parts := Split(key, '-');
    if |parts| != 3 then None
    else
      match (ParseInt(parts[0]), ParseInt(parts[1]), ParseInt(parts[2]))
      case (Some(y), Some(m), Some(d)) => Some(DateKey(y, m, d))
      case _ => None
  }

  predicate NonNegative(k: DateKey) {
    k.year >= 0 && k.month >= 0 && k.day >= 0
  }

  lemma PaddedParses(n: nat, width: nat)
    ensures ParseInt(FormatPadded(n, width)) == Some(n)
  {
    var d := NatToString(n);
    var k := if |d| >= width then 0 else width - |d|;
    assert FormatPadded(n, width) == Repeat('0', k) + d;
    ParseZeroPadded(k, n);
  }

  /** A date key with non-negative components reads back as itself. */
  lemma {:induction false} RoundTrip(k: DateKey)
    requires NonNegative(k)
    ensures Deserialize(Serialize(k)) == Some(k)
  {
    var y, m, d := FormatPadded(k.year, 4), FormatPadded(k.month, 2), FormatPadded(k.day, 2);
    assert Serialize(k) == y + ['-'] + (m + ['-'] + d);
    SplitAtFirst(y, m + ['-'] + d, '-');
    SplitAtFirst(m, d, '-');
    SplitNoSep(d, '-');
    assert Split(Serialize(k), '-') == [y, m, d];
    PaddedParses(k.year, 4);
    PaddedParses(k.month, 2);
    PaddedParses(k.day, 2);
  }

  /** A negative component puts a fourth `-` into the key, which then fails to read back. */
  lemma {:induction false} NegativeDoesNotRoundTrip(k: DateKey)
    requires !NonNegative(k)
    ensures Deserialize(Serialize(k)) == None
  {
    var y, m, d := FormatPadded(k.year, 4), FormatPadded(k.month, 2), FormatPadded(k.day, 2);
    assert Serialize(k) == y + "-" + m + "-" + d;
    CountAppend(y + "-" + m + "-", d, '-');
    CountAppend(y + "-" + m, "-", '-');
    CountAppend(y + "-", m, '-');
    CountAppend(y, "-", '-');
    assert Count("-", '-') == 1;
    DashFirst(y);
    DashFirst(m);
    DashFirst(d);
    SplitCount(Serialize(k), '-');
  }

  lemma DashFirst(s: string)
    ensures |s| >= 1 && s[0] == '-' ==> Count(s, '-') >= 1
  {
  }

  /** Read-back succeeds in both directions exactly for non-negative keys. */
  lemma RoundTripIff(k: DateKey)
    ensures Deserialize(Serialize(k)) == Some(k) <==> NonNegative(k)
  {
    if NonNegative(k) {
      RoundTrip(k);
    } else {
      NegativeDoesNotRoundTrip(k);
    }
  }

  /** Distinct non-negative keys serialize to distinct strings, so the saved object has one
      member per day. */
  lemma SerializeInjective(a: DateKey, b: DateKey)
    requires NonNegative(a) && NonNegative(b) && Serialize(a) == Serialize(b)
    ensures a == b
  {
    RoundTrip(a);
    RoundTrip(b);
  }

  /** A key that reads back has exactly two separators. */
  lemma DeserializeNeedsTwoDashes(key: string)
    requires Deserialize(key).Some?
    ensures Count(key, '-') == 2
  {
    SplitCount(key, '-');
  }
}
