/** Decimal rendering of integers and the `M:SS` clock captions the player
    shows (`f"{m}:{s:02d}"`), together with a parser that reads a caption
    back, so that every caption can be shown to denote exactly one time. */
module TimeText {
  import opened Wrappers

  /** Python's `int(x)` on a float: rounds toward zero. */
  function Trunc(x: real): (r: int)
    ensures 0.0 <= x ==> r as real <= x < r as real + 1.0
    ensures x < 0.0 ==> r as real - 1.0 < x <= r as real
  {
    if x >= 0.0 then x.Floor else -((-x).Floor)
  }

  /** The decimal digit character for `0 <= d < 10`. */
  function DigitChar(d: int): (c: char)
    requires 0 <= d < 10
    ensures IsDigit(c) && DigitValue(c) == d
  {
    (('0' as int) + d) as char
  }

  function DigitValue(c: char): int
  {
    (c as int) - ('0' as int)
  }

  predicate IsDigit(c: char)
  {
    '0' <= c <= '9'
  }

  /** `str(n)` for a non-negative integer: decimal digits, no leading zero. */
  function NatText(n: nat): (s: string)
    ensures |s| >= 1
    ensures forall i :: 0 <= i < |s| ==> IsDigit(s[i])
    ensures s[0] == '0' <==> n == 0
    decreases n
  {
    if n < 10 then [DigitChar(n)] else NatText(n / 10) + [DigitChar(n % 10)]
  }

  /** `str(i)` for any integer: a minus sign before the digits of `-i`. */
  function IntText(i: int): (s: string)
    ensures |s| >= 1
    ensures ':' !in s
    ensures s[0] == '-' <==> i < 0
  {
    if i < 0 then "-" + NatText(-i) else NatText(i)
  }

  /** `f"{n:02d}"` for `0 <= n < 100`: always exactly two digits. */
  function Pad2(n: int): (s: string)
    requires 0 <= n < 100
    ensures |s| == 2 && IsDigit(s[0]) && IsDigit(s[1])
  {
    [DigitChar(n / 10), DigitChar(n % 10)]
  }

  /** The caption `f"{t // 60}:{t % 60:02d}"` for a whole number of seconds `t`.
      Python's `//` and `%` by a positive divisor round toward minus infinity,
      which is what Dafny's `/` and `%` do for a positive divisor too. */
  function ClockText(t: int): (r: string)
    ensures |r| >= 4 && r[|r| - 3] == ':' && IsDigit(r[|r| - 2]) && IsDigit(r[|r| - 1])
    ensures ':' !in r[..|r| - 3]
    ensures r[0] == '-' <==> t < 0
  {
    var m := IntText(t / 60);
    assert (m + ":" + Pad2(t % 60))[..|m|] == m;
    m + ":" + Pad2(t % 60)
  }

  // ---------------------------------------------------------------------------
  // Reading captions back
  // ---------------------------------------------------------------------------

  function ParseNat(s: string): int
  {
    if |s| == 0 then 0 else ParseNat(s[..|s| - 1]) * 10 + DigitValue(s[|s| - 1])
  }

  function ParseInt(s: string): int
  {
    if |s| > 0 && s[0] == '-' then -ParseNat(s[1..]) else ParseNat(s)
  }

  /** Position of the first `':'` in `s`, or `|s|` when there is none. */
  function FirstColon(s: string): (k: nat)
    ensures k <= |s|
    ensures forall i :: 0 <= i < k ==> s[i] != ':'
    ensures k < |s| ==> s[k] == ':'
  {
    if |s| == 0 then 0 else if s[0] == ':' then 0 else 1 + FirstColon(s[1..])
  }

  /** Reads `M:SS` back into seconds; `None` when there is no colon. */
  function ParseClock(s: string): Option<int>
  {
    var k := FirstColon(s);
    if k == |s| then None else Some(60 * ParseInt(s[..k]) + ParseNat(s[k + 1..]))
  }

  lemma {:induction false} NatTextRoundTrip(n: nat)
    ensures ParseNat(NatText(n)) == n
    decreases n
  {
    if n >= 10 {
      var s := NatText(n);
      assert s == NatText(n / 10) + [DigitChar(n % 10)];
      assert s[..|s| - 1] == NatText(n / 10);
      NatTextRoundTrip(n / 10);
    }
  }

  lemma {:induction false} IntTextRoundTrip(i: int)
    ensures ParseInt(IntText(i)) == i
  {
    var s := IntText(i);
    if i < 0 {
      assert s == "-" + NatText(-i);
      assert s[1..] == NatText(-i);
      NatTextRoundTrip(-i);
      assert ParseInt(s) == -ParseNat(NatText(-i));
    } else {
      assert s == NatText(i);
      NatTextRoundTrip(i);
      assert s[0] != '-';
    }
  }

  lemma Pad2RoundTrip(n: int)
    requires 0 <= n < 100
    ensures ParseNat(Pad2(n)) == n
  {
    var s := Pad2(n);
    var hi, lo := DigitChar(n / 10), DigitChar(n % 10);
    assert s[..1] == [hi] && s[1] == lo;
    assert [hi][..0] == [];
    assert ParseNat([hi]) == ParseNat([]) * 10 + DigitValue(hi);
    assert ParseNat(s) == ParseNat(s[..1]) * 10 + DigitValue(lo);
  }

  /** Every caption denotes the time it was made from: the minutes part and
      the two-digit seconds part together give back `t`, for negative `t` too. */
  lemma ClockRoundTrip(t: int)
    ensures ParseClock(ClockText(t)) == Some(t)
  {
    var m := IntText(t / 60);
    var s := ClockText(t);
    assert s == m + (":" + Pad2(t % 60));
    FirstColonAfter(m, ":" + Pad2(t % 60));
    assert s[..|m|] == m;
    assert s[|m| + 1..] == Pad2(t % 60);
    assert FirstColon(s) == |m| < |s|;
    IntTextRoundTrip(t / 60);
    Pad2RoundTrip(t % 60);
    assert ParseInt(s[..|m|]) == t / 60;
    assert ParseNat(s[|m| + 1..]) == t % 60;
    assert ParseClock(s) == Some(60 * (t / 60) + t % 60);
  }

  lemma {:induction false} FirstColonAfter(a: string, b: string)
    requires ':' !in a
    requires |b| > 0 && b[0] == ':'
    ensures FirstColon(a + b) == |a|
    decreases |a|
  {
    if |a| > 0 {
      assert (a + b)[1..] == a[1..] + b;
      FirstColonAfter(a[1..], b);
    } else {
      assert a + b == b;
    }
  }

  /** Different times never share a caption. */
  lemma ClockTextInjective(t: int, u: int)
    requires ClockText(t) == ClockText(u)
    ensures t == u
  {
    ClockRoundTrip(t);
    ClockRoundTrip(u);
  }
}
