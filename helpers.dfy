/**
 * The integer helpers of src/lib/helpers.js: `clamp`, `pad2` and `formatMMSS`,
 * on integers. `String(n)` for an integer is modelled by `IntToString`, and a
 * parser for the "MM:SS" text is given as the partner of `FormatMMSS`.
 */
module Helpers {
  import opened Wrappers

  /** `Math.max(min, Math.min(max, n))`. */
  function Clamp(n: int, lo: int, hi: int): (r: int)
    ensures r >= lo
    ensures lo <= hi ==> lo <= r <= hi
    ensures lo <= n <= hi ==> r == n
    ensures n < lo || hi < lo ==> r == lo
    ensures lo <= hi < n ==> r == hi
  {
    var m := if hi < n then hi else n;
    if lo < m then m else lo
  }

  // ---------------------------------------------------------------------------
  // Decimal rendering of integers, as `String(n)` does for integer values.

  predicate IsDigit(c: char) {
    '0' <= c <= '9'
  }

  predicate AllDigits(s: string) {
    forall i :: 0 <= i < |s| ==> IsDigit(s[i])
  }

  function DigitChar(d: nat): (c: char)
    requires d < 10
    ensures IsDigit(c) && c as int - '0' as int == d
  {
    ('0' as int + d) as char
  }

  function DigitValue(c: char): nat
    requires IsDigit(c)
  {
    c as int - '0' as int
  }

  /** The shortest decimal numeral of `n`. */
  function NatToString(n: nat): (s: string)
    ensures |s| >= 1 && AllDigits(s)
    ensures |s| >= 2 <==> n >= 10
    ensures s[0] == '0' ==> n == 0
    decreases n
  {
    if n < 10 then [DigitChar(n)] else NatToString(n / 10) + [DigitChar(n % 10)]
  }

  /** `String(n)` for an integer `n`. */
  function IntToString(n: int): (s: string)
    ensures |s| >= 1
    ensures n >= 0 ==> AllDigits(s)
    ensures n < 0 ==> s[0] == '-'
  {
    if n < 0 then "-" + NatToString(-n) else NatToString(n)
  }

  /** The value of a decimal numeral (leading zeros allowed); the inverse of rendering. */
  function ParseDigits(s: string): nat
    requires AllDigits(s)
  {
    if s == [] then 0 else ParseDigits(s[..|s| - 1]) * 10 + DigitValue(s[|s| - 1])
  }

  lemma {:induction false} ParseNatToString(n: nat)
    ensures ParseDigits(NatToString(n)) == n
    decreases n
  {
    var s := NatToString(n);
    if n >= 10 {
      ParseNatToString(n / 10);
      assert s[..|s| - 1] == NatToString(n / 10);
    }
  }

  lemma {:induction false} ParseLeadingZero(s: string)
    requires AllDigits(s)
    ensures AllDigits("0" + s) && ParseDigits("0" + s) == ParseDigits(s)
    decreases |s|
  {
    var t := "0" + s;
    if s != [] {
      assert t[..|t| - 1] == "0" + s[..|s| - 1];
      ParseLeadingZero(s[..|s| - 1]);
    }
  }

  // ---------------------------------------------------------------------------
  // pad2 and formatMMSS

  /** `s.padStart(width, fill)` for a one-character fill string. */
  function PadStart(s: string, width: nat, fill: char): (r: string)
    ensures |r| == if |s| >= width then |s| else width
    ensures r[|r| - |s|..] == s
    ensures forall i :: 0 <= i < |r| - |s| ==> r[i] == fill
  {
    if |s| >= width then s else seq(width - |s|, _ => fill) + s
  }

  /** `String(n).padStart(2, "0")`: numerals of two or more characters are kept, a
      one-character numeral gets exactly one leading '0'. */
  function Pad2(n: int): (r: string)
    ensures |r| >= 2
    ensures |IntToString(n)| >= 2 ==> r == IntToString(n)
    ensures |IntToString(n)| < 2 ==> r == "0" + IntToString(n)
  {
    PadStart(IntToString(n), 2, '0')
  }

  /** `formatMMSS` on an integer number of seconds. */
  function FormatMMSS(totalSeconds: int): (r: string)
    ensures totalSeconds <= 0 ==> r == "00:00"
  {
    var s := if 0 < totalSeconds then totalSeconds else 0;
    var m := s / 60;
    var sec := s % 60;
    Pad2(m) + ":" + Pad2(sec)
  }

  /** Splits a text at its first ':'. */
  function SplitAtColon(t: string): (r: Option<(string, string)>)
    ensures r.Some? ==> t == r.value.0 + ":" + r.value.1 && ':' !in r.value.0
  {
    if t == [] then None
    else if t[0] == ':' then Some(([], t[1..]))
    else match SplitAtColon(t[1..])
      case None => None
      case Some(p) => Some(([t[0]] + p.0, p.1))
  }

  /** Reads minutes and seconds back from an "MM:SS" text. */
  function ParseMMSS(t: string): Option<(nat, nat)> {
    match SplitAtColon(t)
    case None => None
    case Some((mm, ss)) =>
      if mm != [] && ss != [] && AllDigits(mm) && AllDigits(ss)
      then Some((ParseDigits(mm), ParseDigits(ss)))
      else None
  }

  lemma {:induction false} SplitAtFirstColon(a: string, b: string)
    requires ':' !in a
    ensures SplitAtColon(a + ":" + b) == Some((a, b))
    decreases |a|
  {
    if a != [] {
      assert a[0] in a;
      assert (a + ":" + b)[0] == a[0];
      assert (a + ":" + b)[1..] == a[1..] + ":" + b;
      SplitAtFirstColon(a[1..], b);
      assert [a[0]] + a[1..] == a;
    } else {
      assert (a + ":" + b)[1..] == b;
    }
  }

  /** A non-negative `n` of one digit becomes "0d"; of two or more digits, its own numeral. */
  lemma Pad2OfNat(n: nat)
    ensures n < 10 ==> Pad2(n) == ['0', DigitChar(n)]
    ensures n >= 10 ==> Pad2(n) == NatToString(n)
  {
  }

  /** `Pad2` of a non-negative number is a numeral that reads back as that number. */
  lemma ParsePad2(n: nat)
    ensures AllDigits(Pad2(n)) && ParseDigits(Pad2(n)) == n
  {
    ParseNatToString(n);
    if n < 10 {
      ParseLeadingZero(NatToString(n));
    }
  }

  /** Reading back the text built from minutes `m` and seconds `sec`. */
  lemma ParseMinutesSeconds(m: nat, sec: nat)
    requires sec < 60
    ensures ParseMMSS(Pad2(m) + ":" + Pad2(sec)) == Some((m, sec))
  {
    var mm, ss := Pad2(m), Pad2(sec);
    ParsePad2(m);
    ParsePad2(sec);
    assert ':' !in mm by {
      forall i | 0 <= i < |mm| ensures mm[i] != ':' {
        assert IsDigit(mm[i]);
      }
    }
    SplitAtFirstColon(mm, ss);
  }

  /** For s >= 0 the text is the padded minutes, a ':' and the padded seconds, and the
      seconds field is always exactly two digits reading 00..59. */
  lemma FormatMMSSFields(s: int)
    requires s >= 0
    ensures FormatMMSS(s) == Pad2(s / 60) + ":" + Pad2(s % 60)
    ensures |Pad2(s % 60)| == 2 && AllDigits(Pad2(s % 60)) && ParseDigits(Pad2(s % 60)) < 60
  {
    Pad2OfNat(s % 60);
    ParsePad2(s % 60);
  }

  /** Round trip of `formatMMSS`: for every s >= 0 the minutes and seconds read back from
      the text satisfy minutes * 60 + seconds == s. */
  lemma FormatMMSSRoundTrip(s: int)
    requires s >= 0
    ensures ParseMMSS(FormatMMSS(s)) == Some((s / 60, s % 60))
    ensures (s / 60) * 60 + s % 60 == s
  {
    var m: nat, sec: nat := s / 60, s % 60;
    assert FormatMMSS(s) == Pad2(m) + ":" + Pad2(sec);
    ParseMinutesSeconds(m, sec);
  }
}
