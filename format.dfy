/** The display helpers of main.go: formatDuration, formatBytes and
    formatBytesIfKnown. Durations are time.Duration nanoseconds. */
module Format {
  import opened Wrappers
  import opened Text
  import opened Listing

  const Second: int := 1_000_000_000
  const Minute: int := 60 * Second
  const Hour: int := 60 * Minute

  /** d.Round(time.Second): the nearest whole second, halves rounded away
      from zero. */
  function RoundSecond(d: int): (r: int)
    ensures r % Second == 0
    ensures d >= 0 ==> r >= 0 && -Second < 2 * (r - d) <= Second
    ensures d < 0 ==> r <= 0 && -Second <= 2 * (r - d) < Second
  {
    if d < 0 then
      var rem := (-d) % Second;
      if rem + rem < Second then d + rem else d - Second + rem
    else
      var rem := d % Second;
      if rem + rem < Second then d - rem else d + Second - rem
  }

  /** A positive multiple of d is at least d (used by DivUnique). */
  lemma MulAtLeast(k: int, d: int)
    requires k >= 1 && d > 0
    ensures k * d >= d
  {
  }

  /** Euclidean division is determined by quotient and remainder. */
  lemma DivUnique(a: int, d: int, q: int, rem: int)
    requires d > 0 && a == q * d + rem && 0 <= rem < d
    ensures a / d == q && a % d == rem
  {
    var q', r' := a / d, a % d;
    if q' < q {
      MulAtLeast(q - q', d);
      assert false;
    } else if q' > q {
      MulAtLeast(q' - q, d);
      assert false;
    }
  }

  /** Distribution over a sum (used by DivDiv). */
  lemma MulDistributes(x: int, y: int, z: int)
    ensures (x + y) * z == x * z + y * z
  {
  }

  /** Reassociation with commutation (used by DivDiv). */
  lemma MulAssociates(x: int, y: int, z: int)
    ensures (x * y) * z == x * (z * y)
  {
  }

  /** Multiplying by a natural keeps the order (used by UnitStep and DivDiv). */
  lemma MulMonotone(x: int, y: int, z: nat)
    requires x <= y
    ensures x * z <= y * z
  {
  }

  /** Whole seconds divided by a larger unit of `k` seconds: the quotient
      is in units and the remainder in whole seconds. */
  lemma UnitStep(t: nat, k: nat)
    requires k > 0
    ensures (t * Second) / (k * Second) == t / k
    ensures t * Second - (t / k) * (k * Second) == (t % k) * Second
  {
    var q, rem := t / k, t % k;
    assert t == q * k + rem;
    assert t * Second == q * (k * Second) + rem * Second;
    MulMonotone(rem, k - 1, Second);
    DivUnique(t * Second, k * Second, q, rem * Second);
  }

  /** Go's h/m/s steps on a non-negative whole number of seconds. */
  lemma ClockSteps(r: int)
    requires r >= 0 && r % Second == 0
    ensures var h := r / Hour;
            var m := (r - h * Hour) / Minute;
            var s := (r - h * Hour - m * Minute) / Second;
            h >= 0 && 0 <= m < 60 && 0 <= s < 60 && h * 3600 + m * 60 + s == r / Second
  {
    var t := r / Second;
    assert r == t * Second;
    UnitStep(t, 3600);
    var u := t % 3600;
    UnitStep(u, 60);
    UnitStep(u % 60, 1);
    assert t == (t / 3600) * 3600 + (u / 60) * 60 + u % 60;
  }

  /** Go's h/m/s steps on a non-positive whole number of seconds. */
  lemma ClockStepsNegative(r: int)
    requires r <= 0
    ensures var h := TruncDiv(r, Hour);
            var m := TruncDiv(r - h * Hour, Minute);
            var s := TruncDiv(r - h * Hour - m * Minute, Second);
            h <= 0 && m <= 0 && s <= 0
  {
  }

  /** The hours, minutes and seconds formatDuration prints, by Go's
      truncating division. */
  function Clock(d: int): (c: (int, int, int))
    ensures d >= 0 ==> c.0 >= 0 && 0 <= c.1 < 60 && 0 <= c.2 < 60 &&
                       c.0 * 3600 + c.1 * 60 + c.2 == RoundSecond(d) / Second
    ensures d < 0 ==> c.0 <= 0 && c.1 <= 0 && c.2 <= 0
  {
    var r := RoundSecond(d);
    var h := TruncDiv(r, Hour);
    var m := TruncDiv(r - h * Hour, Minute);
    var s := TruncDiv(r - h * Hour - m * Minute, Second);
    if r >= 0 then ClockSteps(r); (h, m, s) else ClockStepsNegative(r); (h, m, s)
  }

  /** formatDuration: "XhMMmSSs" with hours, "MmSSs" with minutes only,
      "Ss" otherwise. */
  function FormatDuration(d: int): string
  {
    FormatClock(Clock(d))
  }

  /** `%02d`: zero-padded to two digits, a negative number as `%d`. */
  function ZeroPad2(n: int): string
  {
    if n >= 0 then Pad2(n) else IntToDecimal(n)
  }

  /** The text of hours, minutes and seconds. */
  function FormatClock(c: (int, int, int)): string
  {
    var (h, m, s) := c;
    if h > 0 then IntToDecimal(h) + "h" + ZeroPad2(m) + "m" + ZeroPad2(s) + "s"
    else if m > 0 then IntToDecimal(m) + "m" + ZeroPad2(s) + "s"
    else IntToDecimal(s) + "s"
  }

  predicate Numeral(t: string)
  {
    t != [] && AllDigits(t)
  }

  /** Reads "<H>h<M>m<S>s", "<M>m<S>s" or "<S>s" back into seconds. */
  function ReadDuration(t: string): Option<int>
  {
    if t == [] || t[|t| - 1] != 's' then None
    else ReadClock(Split(t[..|t| - 1], 'h'))
  }

  /** The text before the final "s", cut at 'h'. */
  function ReadClock(hs: seq<string>): Option<int>
    requires |hs| >= 1
  {
    if |hs| > 2 then None
    else ReadFields(if |hs| == 2 then Some(hs[0]) else None, Split(hs[|hs| - 1], 'm'))
  }

  /** The value of a field; an absent field counts as zero. */
  function FieldValue(f: Option<string>): Option<nat>
  {
    match f
    case None => Some(0)
    case Some(t) => if Numeral(t) then Some(DecimalValue(t)) else None
  }

  /** The hours, and the rest cut at 'm'. */
  function ReadFields(h: Option<string>, ms: seq<string>): Option<int>
    requires |ms| >= 1
  {
    var hv := FieldValue(h);
    var mv := FieldValue(if |ms| == 2 then Some(ms[0]) else None);
    var sv := FieldValue(Some(ms[|ms| - 1]));
    if |ms| > 2 || hv.None? || mv.None? || sv.None? then None
    else Some(hv.value * 3600 + mv.value * 60 + sv.value)
  }

  lemma DigitsHaveNoLetter(t: string, c: char)
    requires AllDigits(t) && !IsDigit(c)
    ensures c !in t
  {
  }

  lemma DigitsHaveNoSpace(t: string)
    requires AllDigits(t)
    ensures NoSpace(t)
  {
  }

  /** The reader drops the final "s" and cuts the rest at 'h'. */
  lemma ReadDurationOf(body: string)
    ensures ReadDuration(body + "s") == ReadClock(Split(body, 'h'))
  {
    var t := body + "s";
    assert |t| == |body| + 1 && t[|body|] == 's';
    assert t[..|body|] == body;
  }

  /** Digits and a unit letter other than 'h' contain no 'h'. */
  lemma NoHourMark(b: string, c: string)
    requires AllDigits(b) && AllDigits(c)
    ensures 'h' !in b + "m" + c
  {
    DigitsHaveNoLetter(b, 'h');
    DigitsHaveNoLetter(c, 'h');
  }

  /** Hours, then minutes and seconds, read from their fields. */
  lemma ReadHoursClock(a: string, b: string, c: string, body: string)
    requires AllDigits(a) && AllDigits(b) && AllDigits(c) && body == a + "h" + b + "m" + c
    ensures ReadClock(Split(body, 'h')) == ReadFields(Some(a), [b, c])
  {
    var rest := b + "m" + c;
    assert body == a + ['h'] + rest;
    DigitsHaveNoLetter(a, 'h');
    NoHourMark(b, c);
    SplitTwo(a, rest, 'h');
    DigitsHaveNoLetter(b, 'm');
    DigitsHaveNoLetter(c, 'm');
    SplitTwo(b, c, 'm');
  }

  /** Minutes and seconds, with no hours, read from their fields. */
  lemma ReadMinutesClock(b: string, c: string, body: string)
    requires AllDigits(b) && AllDigits(c) && body == b + "m" + c
    ensures ReadClock(Split(body, 'h')) == ReadFields(None, [b, c])
  {
    NoHourMark(b, c);
    SplitNone(body, 'h');
    DigitsHaveNoLetter(b, 'm');
    DigitsHaveNoLetter(c, 'm');
    SplitTwo(b, c, 'm');
  }

  /** Numeral fields are read as their decimal values. */
  lemma ReadNumerals(h: Option<string>, m: string, s: string)
    requires h.Some? ==> Numeral(h.value)
    requires Numeral(m) && Numeral(s)
    ensures ReadFields(h, [m, s]) ==
            Some((if h.Some? then DecimalValue(h.value) else 0) * 3600 + DecimalValue(m) * 60 + DecimalValue(s))
  {
  }

  lemma ReadSecondsText(c: string)
    requires Numeral(c)
    ensures ReadDuration(c + "s") == Some(DecimalValue(c))
  {
    ReadDurationOf(c);
    DigitsHaveNoLetter(c, 'h');
    DigitsHaveNoLetter(c, 'm');
    SplitNone(c, 'h');
    SplitNone(c, 'm');
  }

  lemma RoundTripHours(h: nat, m: nat, s: nat)
    requires h > 0 && m < 60 && s < 60
    ensures ReadDuration(FormatClock((h, m, s))) == Some(h * 3600 + m * 60 + s)
  {
    var body := NatToDecimal(h) + "h" + Pad2(m) + "m" + Pad2(s);
    assert FormatClock((h, m, s)) == body + "s";
    ReadDurationOf(body);
    ReadHoursClock(NatToDecimal(h), Pad2(m), Pad2(s), body);
    ReadNumerals(Some(NatToDecimal(h)), Pad2(m), Pad2(s));
    DecimalRoundTrip(h);
    Pad2RoundTrip(m);
    Pad2RoundTrip(s);
  }

  lemma RoundTripMinutes(m: nat, s: nat)
    requires m > 0 && s < 60
    ensures ReadDuration(FormatClock((0, m, s))) == Some(m * 60 + s)
  {
    var body := NatToDecimal(m) + "m" + Pad2(s);
    assert FormatClock((0, m, s)) == body + "s";
    ReadDurationOf(body);
    ReadMinutesClock(NatToDecimal(m), Pad2(s), body);
    ReadNumerals(None, NatToDecimal(m), Pad2(s));
    DecimalRoundTrip(m);
    Pad2RoundTrip(s);
  }

  lemma RoundTripSeconds(s: nat)
    ensures ReadDuration(FormatClock((0, 0, s))) == Some(s)
  {
    assert FormatClock((0, 0, s)) == NatToDecimal(s) + "s";
    DecimalRoundTrip(s);
    ReadSecondsText(NatToDecimal(s));
  }

  /** Reading the text of hours, minutes and seconds gives back the
      seconds they add up to. */
  lemma FormatClockRoundTrip(h: nat, m: nat, s: nat)
    requires m < 60 && s < 60
    ensures ReadDuration(FormatClock((h, m, s))) == Some(h * 3600 + m * 60 + s)
  {
    if h > 0 {
      RoundTripHours(h, m, s);
    } else if m > 0 {
      RoundTripMinutes(m, s);
    } else {
      RoundTripSeconds(s);
    }
  }

  /** Reading a formatted duration gives back its whole seconds. */
  lemma FormatDurationRoundTrip(d: int)
    requires d >= 0
    ensures ReadDuration(FormatDuration(d)) == Some(RoundSecond(d) / Second)
  {
    var (h, m, s) := Clock(d);
    assert FormatDuration(d) == FormatClock((h, m, s));
    assert h * 3600 + m * 60 + s == RoundSecond(d) / Second;
    FormatClockRoundTrip(h, m, s);
  }

  lemma NoSpaceConcat(a: string, b: string)
    requires NoSpace(a) && NoSpace(b)
    ensures NoSpace(a + b)
  {
    forall i | 0 <= i < |a + b| ensures !IsSpace((a + b)[i]) {
      if i >= |a| { assert (a + b)[i] == b[i - |a|]; }
    }
  }

  /** A number followed by a unit letter has no space and no other
      letter. */
  lemma NumberWithUnit(a: string, u: char)
    requires AllDigits(a) && !IsDigit(u) && !IsSpace(u)
    ensures NoSpace(a + [u]) && u in a + [u]
    ensures forall c :: !IsDigit(c) && c != u ==> c !in a + [u]
  {
    DigitsHaveNoSpace(a);
    NoSpaceConcat(a, [u]);
    assert (a + [u])[|a|] == u;
    forall c | !IsDigit(c) && c != u ensures c !in a + [u] {
      DigitsHaveNoLetter(a, c);
    }
  }

  lemma HoursForm(a: string, b: string, c: string)
    requires AllDigits(a) && AllDigits(b) && AllDigits(c)
    ensures var t := a + "h" + b + "m" + c + "s";
      NoSpace(t) && 'h' in t && 'm' in t
  {
    NumberWithUnit(a, 'h');
    NumberWithUnit(b, 'm');
    NumberWithUnit(c, 's');
    var x, y, z := a + "h", b + "m", c + "s";
    NoSpaceConcat(x, y);
    NoSpaceConcat(x + y, z);
    assert a + "h" + b + "m" + c + "s" == x + y + z;
  }

  lemma MinutesForm(b: string, c: string)
    requires AllDigits(b) && AllDigits(c)
    ensures var t := b + "m" + c + "s";
      NoSpace(t) && 'h' !in t && 'm' in t
  {
    NumberWithUnit(b, 'm');
    NumberWithUnit(c, 's');
    var y, z := b + "m", c + "s";
    NoSpaceConcat(y, z);
    assert b + "m" + c + "s" == y + z;
  }

  lemma SecondsForm(c: string)
    requires AllDigits(c)
    ensures var t := c + "s";
      NoSpace(t) && 'h' !in t && 'm' !in t
  {
    NumberWithUnit(c, 's');
  }

  /** The three forms, and no spaces between the units. */
  lemma FormatDurationForms(d: int)
    requires d >= 0
    ensures var (h, m, s) := Clock(d);
      && NoSpace(FormatDuration(d))
      && ('h' in FormatDuration(d) <==> h > 0)
      && ('m' in FormatDuration(d) <==> h > 0 || m > 0)
  {
    var (h, m, s) := Clock(d);
    if h > 0 {
      assert FormatDuration(d) == NatToDecimal(h) + "h" + Pad2(m) + "m" + Pad2(s) + "s";
      HoursForm(NatToDecimal(h), Pad2(m), Pad2(s));
    } else if m > 0 {
      assert FormatDuration(d) == NatToDecimal(m) + "m" + Pad2(s) + "s";
      MinutesForm(NatToDecimal(m), Pad2(s));
    } else {
      assert FormatDuration(d) == NatToDecimal(s) + "s";
      SecondsForm(NatToDecimal(s));
    }
  }

  const Prefixes: string := "KMGTPE"

  /** What formatBytes prints: a plain byte count, or the value
      bytes / div with two decimals and the unit prefix Prefixes[exp] "iB";
      "?" for an unknown size. */
  datatype ByteText = Unknown | Plain(count: int) | Scaled(bytes: int, div: int, exp: nat, prefix: char)

  /** The text formatBytes must print for the given count: the plain form
      below 1 KiB, and otherwise the largest binary unit not above it. */
  ghost predicate Describes(t: ByteText, bytes: int)
  {
    if bytes < 1024 then t == Plain(bytes)
    else t.Scaled? && t.bytes == bytes && t.exp < |Prefixes| && t.prefix == Prefixes[t.exp] &&
         t.div == Pow(1024, t.exp + 1) && t.div <= bytes < 1024 * t.div
  }

  lemma {:induction false} PowMonotone(a: nat, b: nat)
    requires a <= b
    ensures Pow(1024, a) <= Pow(1024, b)
    decreases b
  {
    if a < b {
      PowMonotone(a, b - 1);
    }
  }

  /** At most one text describes a count: the unit is determined. */
  lemma DescribesUnique(t1: ByteText, t2: ByteText, bytes: int)
    requires Describes(t1, bytes) && Describes(t2, bytes)
    ensures t1 == t2
  {
    if bytes >= 1024 {
      if t1.exp < t2.exp {
        PowMonotone(t1.exp + 2, t2.exp + 1);
      } else if t2.exp < t1.exp {
        PowMonotone(t2.exp + 2, t1.exp + 1);
      }
    }
  }

  lemma DivDiv(a: nat, b: nat, c: nat)
    requires b > 0 && c > 0
    ensures a / b / c == a / (b * c)
  {
    var q1, r1 := a / b, a % b;
    var q2, r2 := q1 / c, q1 % c;
    assert a == q1 * b + r1;
    assert q1 == q2 * c + r2;
    MulDistributes(q2 * c, r2, b);
    MulAssociates(q2, c, b);
    MulMonotone(r2, c - 1, b);
    MulDistributes(c, -1, b);
    assert c * b == b * c;
    DivUnique(a, b * c, q2, r2 * b + r1);
  }

  lemma DivBelow(a: nat, b: nat, q: nat)
    requires b > 0 && a / b < q
    ensures a < q * b
  {
    assert a == (a / b) * b + a % b;
    assert (a / b) * b <= (q - 1) * b;
  }

  /** formatBytes: the unit is chosen by an integer loop that keeps
      dividing by 1024. */
  method FormatBytes(bytes: int) returns (t: ByteText)
    requires bytes < 0x8000_0000_0000_0000
    ensures Describes(t, bytes)
  {
    if bytes < 1024 {
      return Plain(bytes);
    }
    var div, exp := 1024, 0;
    var n := bytes / 1024;
    assert Pow(1024, 1) == 1024;
    while n >= 1024
      invariant 0 <= exp < |Prefixes| && div == Pow(1024, exp + 1)
      invariant n == bytes / div && div <= bytes
      decreases n
    {
      assert Pow(1024, 6) == 0x1000_0000_0000_0000;
      DivBelow(bytes, div, n + 1);
      DivDiv(bytes, div, 1024);
      assert 1024 * div <= bytes by {
        assert n * div <= bytes;
      }
      div := div * 1024;
      exp := exp + 1;
      n := n / 1024;
    }
    DivBelow(bytes, div, 1024);
    return Scaled(bytes, div, exp, Prefixes[exp]);
  }

  /** formatBytesIfKnown: "?" for a count that is not positive. */
  method FormatBytesIfKnown(bytes: int) returns (t: ByteText)
    requires bytes < 0x8000_0000_0000_0000
    ensures bytes <= 0 ==> t == Unknown
    ensures bytes > 0 ==> Describes(t, bytes)
  {
    if bytes <= 0 {
      return Unknown;
    }
    t := FormatBytes(bytes);
  }
}
