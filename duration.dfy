/**
 * `format_duration` of backend/main.py: a duration in seconds, possibly absent,
 * rendered as `H:MM:SS` when the hour field is non-zero, as `M:SS` otherwise,
 * and as the sentinel `Unknown` when absent.
 *
 * Python's `divmod(n, 60)` floors; for the positive divisor 60 that is exactly
 * Dafny's Euclidean `/` and `%` on `int`, so the model covers every integer,
 * negative ones included (they come out with a negative hour field).
 */
module Duration {
  import opened Wrappers

  const Unknown: string := "Unknown"

  // ---------- Decimal digits ----------

  predicate IsDigit(c: char) {
    '0' <= c <= '9'
  }

  predicate AllDigits(s: string) {
    forall i :: 0 <= i < |s| ==> IsDigit(s[i])
  }

  function DigitChar(d: nat): (c: char)
    requires d < 10
    ensures IsDigit(c)
  {
    ('0' as int + d) as char
  }

  function DigitValue(c: char): (d: nat)
    requires IsDigit(c)
    ensures d < 10
  {
    c as int - '0' as int
  }

  // ---------- Python's str() of an int and f"{n:02}" ----------

  /** `str(n)` for a non-negative integer: decimal digits without leading zeros. */
  function NatToString(n: nat): (s: string)
    ensures |s| >= 1 && AllDigits(s)
    ensures |s| > 1 ==> s[0] != '0'
    ensures n < 10 <==> |s| == 1
    ensures 10 <= n < 100 ==> |s| == 2
    decreases n
  {
    if n < 10 then [DigitChar(n)] else NatToString(n / 10) + [DigitChar(n % 10)]
  }

  /** `str(i)` for any integer: a minus sign before the magnitude when negative. */
  function IntToString(i: int): (s: string)
    ensures |s| >= 1
    ensures s[0] == '-' <==> i < 0
  {
    if i < 0 then "-" + NatToString(-i) else NatToString(i)
  }

  /** `f"{n:02}"` for 0 <= n < 100: exactly two digits, zero-padded on the left. */
  function Pad2(n: nat): (s: string)
    requires n < 100
    ensures |s| == 2 && AllDigits(s)
  {
    [DigitChar(n / 10), DigitChar(n % 10)]
  }

  // ---------- Parsers, the inverses used to state round trips ----------

  /** The value of a non-empty string of decimal digits. */
  function ParseNat(s: string): (r: Option<nat>)
    ensures r.Some? <==> |s| >= 1 && AllDigits(s)
  {
    if |s| == 0 || !IsDigit(s[|s| - 1]) then None
    else if |s| == 1 then Some(DigitValue(s[0]))
    else match ParseNat(s[..|s| - 1])
      case None => None
      case Some(v) => Some(v * 10 + DigitValue(s[|s| - 1]))
  }

  /** The value of an optionally negated decimal numeral. */
  function ParseInt(s: string): (r: Option<int>)
  {
    if |s| > 0 && s[0] == '-' then
      match ParseNat(s[1..])
      case None => None
      case Some(v) => Some(-(v as int))
    else
      match ParseNat(s)
      case None => None
      case Some(v) => Some(v)
  }

  /** The value of a two-digit field below 60 (minutes or seconds). */
  function ParseField(s: string): (r: Option<nat>)
  {
    if |s| == 2 && AllDigits(s) && DigitValue(s[0]) * 10 + DigitValue(s[1]) < 60 then
      Some(DigitValue(s[0]) * 10 + DigitValue(s[1]))
    else None
  }

  /**
   * Reads back a rendered duration: `M:SS` or `H:MM:SS`, `H` possibly negative.
   * It parses from the right, so the `:` that ends the leftmost field is found
   * three characters before the end of what remains.
   */
  function ParseDuration(s: string): (r: Option<int>)
  {
    if |s| < 3 || s[|s| - 3] != ':' then None
    else
      var rest := s[..|s| - 3];
      match ParseField(s[|s| - 2..])
      case None => None
      case Some(secs) =>
        if |rest| >= 3 && rest[|rest| - 3] == ':' then
          match (ParseInt(rest[..|rest| - 3]), ParseField(rest[|rest| - 2..]))
          case (Some(hrs), Some(mins)) => Some(hrs * 3600 + mins * 60 + secs)
          case _ => None
        else
          match ParseNat(rest)
          case Some(mins) => Some(mins * 60 + secs)
          case None => None
  }

  // ---------- The two divmods ----------

  /** The (hours, minutes, seconds) fields of a duration. */
  datatype Clock = Clock(hours: int, minutes: nat, seconds: nat)

  /** `mins, secs = divmod(seconds, 60); hrs, mins = divmod(mins, 60)`. */
  function Split(total: int): (c: Clock)
    ensures c.minutes < 60 && c.seconds < 60
    ensures c.hours * 3600 + c.minutes * 60 + c.seconds == total
    ensures c.hours == 0 <==> 0 <= total < 3600
    ensures c.hours < 0 <==> total < 0
  {
    var mins, secs := total / 60, total % 60;
    var c := Clock(mins / 60, mins % 60, secs);
    assert total == 60 * mins + secs;
    assert mins == 60 * c.hours + c.minutes;
    c
  }

  // ---------- format_duration ----------

  function FormatDuration(seconds: Option<int>): (r: string)
    ensures r == Unknown <==> seconds.None?
  {
    match seconds
    case None => Unknown
    case Some(total) =>
      var c := Split(total);
      var r := if c.hours != 0 then
                 IntToString(c.hours) + ":" + Pad2(c.minutes) + ":" + Pad2(c.seconds)
               else
                 NatToString(c.minutes) + ":" + Pad2(c.seconds);
      assert r[0] == '-' || IsDigit(r[0]);
      r
  }

  // ---------- Properties ----------

  /** `str` of a non-negative integer reads back as that integer. */
  lemma {:induction false} ParseNatToString(n: nat)
    ensures ParseNat(NatToString(n)) == Some(n)
    decreases n
  {
    if n >= 10 {
      var front := NatToString(n / 10);
      var s := front + [DigitChar(n % 10)];
      assert s[..|s| - 1] == front;
      ParseNatToString(n / 10);
    }
  }

  /** `str` of any integer reads back as that integer. */
  lemma ParseIntToString(i: int)
    ensures ParseInt(IntToString(i)) == Some(i)
  {
    if i < 0 {
      var t := NatToString(-i);
      ParseNatToString(-i);
      assert IntToString(i) == "-" + t;
      assert ("-" + t)[1..] == t;
    } else {
      var t := NatToString(i);
      ParseNatToString(i);
      assert IsDigit(t[0]);
      assert IntToString(i) == t;
    }
  }

  /** A zero-padded field below 60 reads back as its value. */
  lemma ParseFieldPad2(n: nat)
    requires n < 60
    ensures ParseField(Pad2(n)) == Some(n)
  {
  }

  /** Below one hour the rendering is `M:SS`: unpadded minutes, padded seconds. */
  lemma FormatShort(total: int)
    requires 0 <= total < 3600
    ensures FormatDuration(Some(total)) == NatToString(total / 60) + ":" + Pad2(total % 60)
  {
    var c := Split(total);
    assert c.hours == 0;
    assert c.minutes == total / 60;
  }

  /** A positive multiple of a positive number is at least that number. */
  lemma {:induction false} MulAtLeast(b: int, d: int)
    requires b > 0 && d >= 1
    ensures b * d >= b
    decreases d
  {
    if d > 1 {
      MulAtLeast(b, d - 1);
      assert b * d == b * (d - 1) + b;
    }
  }

  /** Euclidean quotient and remainder are unique. */
  lemma DivModUnique(a: int, b: int, q: int, r: int)
    requires b > 0 && a == b * q + r && 0 <= r < b
    ensures a / b == q && a % b == r
  {
    var q', r' := a / b, a % b;
    assert a == b * q' + r';
    assert b * (q - q') == r' - r by {
      assert b * q - b * q' == b * (q - q');
    }
    if q < q' {
      MulAtLeast(b, q' - q);
    } else if q > q' {
      MulAtLeast(b, q - q');
    }
  }

  /**
   * From one hour on the rendering is `H:MM:SS`: whole hours, then the minutes
   * and seconds of what is left over, both zero-padded.
   */
  lemma FormatLong(total: int)
    requires total >= 3600
    ensures FormatDuration(Some(total)) ==
            NatToString(total / 3600) + ":" + Pad2(total % 3600 / 60) + ":" + Pad2(total % 60)
  {
    var c := Split(total);
    var h, left := total / 3600, total % 3600;
    var m := left / 60;
    assert left == 60 * m + left % 60;
    assert total == 60 * (60 * h + m) + left % 60;
    DivModUnique(total, 60, 60 * h + m, left % 60);
    DivModUnique(60 * h + m, 60, h, m);
    assert c.hours == h && c.minutes == m && c.seconds == total % 60;
  }

  /** A negative duration is rendered with a leading minus sign and all three fields. */
  lemma FormatNegative(total: int)
    requires total < 0
    ensures var r := FormatDuration(Some(total));
            r[0] == '-' && r[|r| - 3] == ':' && r[|r| - 6] == ':'
  {
  }

  /** A rendered `H:MM:SS` reads back as the seconds its fields add up to. */
  lemma ParseLongForm(hrs: int, mins: nat, secs: nat)
    requires mins < 60 && secs < 60
    ensures ParseDuration(IntToString(hrs) + ":" + Pad2(mins) + ":" + Pad2(secs))
            == Some(hrs * 3600 + mins * 60 + secs)
  {
    var hs, ms, ss := IntToString(hrs), Pad2(mins), Pad2(secs);
    var rest := hs + ":" + ms;
    var s := rest + ":" + ss;
    assert s[|s| - 3] == ':' && s[..|s| - 3] == rest && s[|s| - 2..] == ss;
    assert rest[|rest| - 3] == ':' && rest[..|rest| - 3] == hs && rest[|rest| - 2..] == ms;
    ParseIntToString(hrs);
    ParseFieldPad2(mins);
    ParseFieldPad2(secs);
    assert ParseDuration(s) == Some(hrs * 3600 + mins * 60 + secs);
  }

  /** A rendered `M:SS` with fewer than 60 minutes reads back as its seconds. */
  lemma ParseShortForm(mins: nat, secs: nat)
    requires mins < 60 && secs < 60
    ensures ParseDuration(NatToString(mins) + ":" + Pad2(secs)) == Some(mins * 60 + secs)
  {
    var rest, ss := NatToString(mins), Pad2(secs);
    var s := rest + ":" + ss;
    assert s[..|s| - 3] == rest && s[|s| - 2..] == ss;
    ParseNatToString(mins);
    ParseFieldPad2(secs);
  }

  /** Every rendering of a present duration reads back as that duration. */
  lemma FormatDurationRoundTrip(total: int)
    ensures ParseDuration(FormatDuration(Some(total))) == Some(total)
  {
    var c := Split(total);
    if c.hours != 0 {
      ParseLongForm(c.hours, c.minutes, c.seconds);
    } else {
      ParseShortForm(c.minutes, c.seconds);
    }
  }

  /** Distinct durations (and absence) are always rendered differently. */
  lemma FormatDurationInjective(a: Option<int>, b: Option<int>)
    requires FormatDuration(a) == FormatDuration(b)
    ensures a == b
  {
    if a.Some? && b.Some? {
      FormatDurationRoundTrip(a.value);
      FormatDurationRoundTrip(b.value);
    }
  }
}
