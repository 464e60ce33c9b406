/** The MAC configuration on its way through the sink: a line in milliseconds
    from the serial port is turned into timer ticks
    (contiki/apps/adaptive-mac/adaptive-mac.c), and ticks are turned back into
    milliseconds for the report (contiki/apps/adaptive-mac/glossy_interface.h).
    The tick rate `R` is RTIMER_SECOND. */
module ConfigRounding {
  import opened Bytes

  const SCALE: nat := 1000
  const WORD: nat := 0x1_0000_0000
  const MAX_INT: nat := 0x7FFF          // of the platform's 16-bit int

  datatype Config = Config(tl: u16, ts: u16, n: byte)

  /** `(unsigned long)RTIMER_SECOND * 10 * ms / SCALE`: tenths of a tick. */
  function TenthTicks(R: nat, ms: int): nat {
    R * 10 * ms % WORD / SCALE
  }

  /** The nearest tick, a half rounded up, in 16 bits. */
  function Ticks(R: nat, ms: int): u16 {
    (TenthTicks(R, ms) + 5) / 10 % 0x1_0000
  }

  /** The millisecond value the report prints for `t` ticks. */
  function Printed(R: nat, t: u16): u16
    requires R > 0
  {
    var tenths := t * SCALE * 10 % WORD / R;
    (if tenths % 10 > 4 then tenths / 10 + 1 else tenths / 10) % 0x1_0000
  }

  /** The products for `ms` fit 32 bits and the ticks fit 16. */
  predicate Fits(R: nat, ms: int) {
    0 <= ms && 10 * (R * ms) < WORD && (R * ms + 500) / 1000 < 0x1_0000
  }

  // ------------------------------------------------------------------ rounding

  lemma HalfUp(y: nat)
    ensures (10 * y / 1000 + 5) / 10 == (y + 500) / 1000
  {
    var a, b, r := y / 1000, y / 100 % 10, y % 100;
    assert y == 1000 * a + 100 * b + r;
    assert 10 * y / 1000 == 10 * a + b;
  }

  /** The tick value is R * ms / 1000 rounded half up. */
  lemma TicksRoundHalfUp(R: nat, ms: int)
    requires Fits(R, ms)
    ensures Ticks(R, ms) == (R * ms + 500) / 1000
  {
    var y := R * ms;
    assert R * 10 * ms == 10 * y;
    TicksOfProduct(R, ms, y);
  }

  lemma TenthsOfProduct(R: nat, ms: nat, y: nat)
    requires R * 10 * ms == 10 * y < WORD
    ensures TenthTicks(R, ms) == 10 * y / 1000
  {
  }

  lemma InWord(t: nat)
    requires t < 0x1_0000
    ensures t % 0x1_0000 == t
  {
  }

  lemma TicksOfProduct(R: nat, ms: nat, y: nat)
    requires R * 10 * ms == 10 * y < WORD && (y + 500) / 1000 < 0x1_0000
    ensures Ticks(R, ms) == (y + 500) / 1000
  {
    TenthsOfProduct(R, ms, y);
    hide TenthTicks;
    HalfUp(y);
    assert (TenthTicks(R, ms) + 5) / 10 == (y + 500) / 1000;
    InWord((y + 500) / 1000);
  }

  lemma TimesMonotone(a: int, b: int, R: nat)
    requires a <= b
    ensures a * R <= b * R
  {
  }

  lemma QuotientBetween(z: nat, R: nat, lo: int, hi: int)
    requires R > 0 && lo * R <= z < hi * R
    ensures lo <= z / R < hi
  {
    var q := z / R;
    assert z == q * R + z % R;
    assert (q + 1) * R == q * R + R;
    if q >= hi {
      TimesMonotone(hi, q, R);
    }
    if q < lo {
      TimesMonotone(q + 1, lo, R);
    }
  }

  /** Rounding a quotient half up by way of its tenths. */
  lemma TenthsRound(z: nat, R: nat, ms: nat)
    requires R > 0
    requires 10 * (R * ms) - 5 * R <= z < 10 * (R * ms) + 5 * R
    ensures (if z / R % 10 > 4 then z / R / 10 + 1 else z / R / 10) == ms
  {
    assert (10 * ms - 5) * R == 10 * (R * ms) - 5 * R;
    assert (10 * ms + 5) * R == 10 * (R * ms) + 5 * R;
    QuotientBetween(z, R, 10 * ms - 5, 10 * ms + 5);
    TenthsNear(z / R, ms);
  }

  lemma TenthsNear(q: nat, ms: nat)
    requires 10 * ms - 5 <= q < 10 * ms + 5
    ensures (if q % 10 > 4 then q / 10 + 1 else q / 10) == ms
  {
  }

  /** Back and forth: at a tick rate of at least 1000 Hz every millisecond value
      whose products fit is printed as it was configured. */
  lemma RoundTrip(R: nat, ms: int)
    requires R >= 1000 && Fits(R, ms)
    ensures Printed(R, Ticks(R, ms)) == ms
  {
    TimesMonotone(1000, R, ms);
    TicksRoundHalfUp(R, ms);
    TicksNear(R * ms, R, ms);
    PrintedNear(R, ms, Ticks(R, ms));
  }

  lemma TicksNear(y: nat, R: nat, ms: nat)
    requires y == R * ms && R >= 1000
    ensures 10 * y - 5 * R <= 10000 * ((y + 500) / 1000) < 10 * y + 5 * R
  {
    var t := (y + 500) / 1000;
    assert 1000 * t <= y + 500 < 1000 * t + 1000;
    if R == 1000 {
      assert t == ms;
    }
  }

  lemma PrintedNear(R: nat, ms: nat, t: u16)
    requires R > 0 && ms < 0x1_0000
    requires 10 * (R * ms) - 5 * R <= 10000 * t < 10 * (R * ms) + 5 * R
    ensures Printed(R, t) == ms
  {
    assert t * SCALE * 10 % WORD == 10000 * t;
    TenthsRound(10000 * t, R, ms);
  }

  lemma {:induction false} TicksAtLeast(R: nat, ms: nat)
    requires 0 < R < 0x1_0000 && ms < 1000
    requires forall k :: 0 <= k < 1000 ==> Printed(R, Ticks(R, k)) == k
    ensures Ticks(R, ms) >= ms
  {
    hide Printed, Ticks;
    if ms > 0 {
      TicksAtLeast(R, ms - 1);
      assert Printed(R, Ticks(R, ms)) != Printed(R, Ticks(R, ms - 1));
      TicksMonotone(R, ms - 1);
    }
  }

  lemma TicksMonotone(R: nat, ms: nat)
    requires R < 0x1_0000 && ms + 1 < 1000
    ensures Ticks(R, ms) <= Ticks(R, ms + 1)
  {
    hide Ticks;
    InRange(R, ms);
    InRange(R, ms + 1);
    TicksRoundHalfUp(R, ms);
    TicksRoundHalfUp(R, ms + 1);
    assert R * (ms + 1) == R * ms + R;
  }

  lemma InRange(R: nat, ms: nat)
    requires R < 0x1_0000 && ms < 1000
    ensures Fits(R, ms)
    ensures R < 1000 ==> R * ms <= 999 * ms
  {
    TimesMonotone(ms, 999, R);
    if R < 1000 {
      TimesMonotone(R, 999, ms);
    }
  }

  /** Exactly the tick rates from 1000 Hz on bring every value below one second
      back unchanged. */
  lemma RoundTripIff(R: nat)
    requires 0 < R < 0x1_0000
    ensures (forall ms :: 0 <= ms < 1000 ==> Printed(R, Ticks(R, ms)) == ms) <==> R >= 1000
  {
    if R >= 1000 {
      forall ms | 0 <= ms < 1000 ensures Printed(R, Ticks(R, ms)) == ms {
        InRange(R, ms);
        RoundTrip(R, ms);
      }
    } else if forall ms :: 0 <= ms < 1000 ==> Printed(R, Ticks(R, ms)) == ms {
      TicksAtLeast(R, 999);
      InRange(R, 999);
      TicksRoundHalfUp(R, 999);
      assert false;
    }
  }

  /** On the platform's clock of 32768 Hz exactly the values below two seconds come
      back, of all the values an int can hold. */
  lemma PlatformRoundTripIff(ms: int)
    requires 0 <= ms <= 0x7FFF
    ensures Printed(32768, Ticks(32768, ms)) == ms <==> ms < 2000
  {
    if ms < 2000 {
      RoundTrip(32768, ms);
    } else {
      if ms == 2000 {
        TwoSecondsVanish();
      }
      AtMostTwoSeconds(Ticks(32768, ms));
    }
  }

  lemma TwoSecondsVanish()
    ensures Ticks(32768, 2000) == 0 && Printed(32768, 0) == 0
  {
  }

  lemma AtMostTwoSeconds(t: u16)
    ensures Printed(32768, t) <= 2000
  {
    assert t * 10000 / 32768 <= 19999;
  }

  /** The product is cut to 32 bits: with a clock of 32768 Hz first at 13108 ms. */
  lemma ProductIsCut(ms: nat)
    requires ms < 26215
    ensures TenthTicks(32768, ms)
         == if ms < 13108 then 327680 * ms / 1000 else (327680 * ms - 4294967296) / 1000
  {
  }

  // ------------------------------------------------------------------- parsing

  predicate IsDigits(s: string) {
    forall i :: 0 <= i < |s| ==> '0' <= s[i] <= '9'
  }

  predicate IsBlank(c: char) {
    c == ' ' || 9 <= c as int <= 13
  }

  function SkipBlanks(s: string): string {
    if s != "" && IsBlank(s[0]) then SkipBlanks(s[1..]) else s
  }

  function LeadingDigits(s: string): (r: string)
    ensures IsDigits(r)
  {
    if s != "" && '0' <= s[0] <= '9' then [s[0]] + LeadingDigits(s[1..]) else ""
  }

  /** The C library's atoi: blanks, a sign, digits, and whatever follows them. */
  function Atoi(s: string): int {
    var t := SkipBlanks(s);
    if t != "" && t[0] == '-' then 0 - Value(LeadingDigits(t[1..]))
    else if t != "" && t[0] == '+' then Value(LeadingDigits(t[1..]))
    else Value(LeadingDigits(t))
  }

  /** The number a string of digits stands for. */
  function Value(s: string): nat
    requires IsDigits(s)
  {
    if s == "" then 0
    else 10 * Value(s[.. |s| - 1]) + (s[|s| - 1] as int - '0' as int)
  }

  /** Position of the first comma from `i` on. */
  function Comma(line: string, i: nat): (j: nat)
    requires i <= |line|
    ensures i <= j <= |line|
    ensures forall k :: i <= k < j ==> line[k] != ','
    ensures j < |line| ==> line[j] == ','
    decreases |line| - i
  {
    if i == |line| || line[i] == ',' then i else Comma(line, i + 1)
  }

  /** What fits the ten characters of `buf`, and an int. */
  predicate Field(s: string) {
    |s| <= 9 && -1 - MAX_INT <= Atoi(s) <= MAX_INT
  }

  /** Three fields, each followed by a comma. */
  predicate ConfigLine(line: string) {
    var c1 := Comma(line, 0);
    && c1 < |line| && Field(line[.. c1])
    && var c2 := Comma(line, c1 + 1);
       && c2 < |line| && Field(line[c1 + 1 .. c2])
       && var c3 := Comma(line, c2 + 1);
          && c3 < |line| && Field(line[c2 + 1 .. c3])
  }

  /** The numbers on the line. */
  function Fields(line: string): (int, int, int)
    requires ConfigLine(line)
  {
    var c1 := Comma(line, 0);
    var c2 := Comma(line, c1 + 1);
    var c3 := Comma(line, c2 + 1);
    (Atoi(line[.. c1]), Atoi(line[c1 + 1 .. c2]), Atoi(line[c2 + 1 .. c3]))
  }

  lemma {:induction false} DigitsAlone(s: string)
    requires IsDigits(s)
    ensures LeadingDigits(s) == s
  {
    if s != "" {
      DigitsAlone(s[1..]);
    }
  }

  /** A plain decimal number is read as itself. */
  lemma PlainNumber(s: string)
    requires IsDigits(s)
    ensures Atoi(s) == Value(s)
  {
    DigitsAlone(s);
  }

  // ------------------------------------------------------------ printed lines

  /** A number in decimal, as a configuration line is written. */
  function Decimal(v: nat): string {
    var digit := ('0' as int + v % 10) as char;
    if v < 10 then [digit] else Decimal(v / 10) + [digit]
  }

  function Number(v: int): string {
    if v < 0 then "-" + Decimal(-v) else Decimal(v)
  }

  lemma {:induction false} DecimalIsRead(v: nat)
    ensures Decimal(v) != "" && IsDigits(Decimal(v)) && Value(Decimal(v)) == v
  {
    if v >= 10 {
      DecimalIsRead(v / 10);
      assert Decimal(v)[.. |Decimal(v)| - 1] == Decimal(v / 10);
    } else {
      assert Decimal(v)[.. 0] == "";
    }
  }

  lemma {:induction false} DecimalLength(v: nat)
    ensures v < 10 ==> |Decimal(v)| == 1
    ensures v < 100 ==> |Decimal(v)| <= 2
    ensures v < 1000 ==> |Decimal(v)| <= 3
    ensures v < 10000 ==> |Decimal(v)| <= 4
    ensures v < 100000 ==> |Decimal(v)| <= 5
  {
    if v >= 10 {
      DecimalLength(v / 10);
    }
  }

  lemma {:induction false} DigitsThenRest(digits: string, rest: string)
    requires IsDigits(digits) && (rest == "" || !('0' <= rest[0] <= '9'))
    ensures LeadingDigits(digits + rest) == digits
  {
    if digits == "" {
      assert digits + rest == rest;
    } else {
      assert (digits + rest)[1..] == digits[1..] + rest;
      DigitsThenRest(digits[1..], rest);
    }
  }

  /** Blank, tab, newline, vertical tab, form feed and carriage return. */
  predicate AllBlank(s: string) {
    forall i :: 0 <= i < |s| ==> s[i] == ' ' || s[i] as int in [9, 10, 11, 12, 13]
  }

  lemma {:induction false} BlanksSkipped(blanks: string, s: string)
    requires AllBlank(blanks) && s != "" && !IsBlank(s[0])
    ensures SkipBlanks(blanks + s) == s
  {
    if blanks == "" {
      assert blanks + s == s;
    } else {
      assert (blanks + s)[1..] == blanks[1..] + s;
      BlanksSkipped(blanks[1..], s);
    }
  }

  lemma DigitsRead(t: string, v: nat, rest: string)
    requires t == Decimal(v) + rest && (rest == "" || !('0' <= rest[0] <= '9'))
    ensures Value(LeadingDigits(t)) == v
  {
    hide LeadingDigits, Value, Decimal;
    DecimalIsRead(v);
    DigitsThenRest(Decimal(v), rest);
  }

  lemma StartsWithDigit(v: nat, rest: string)
    ensures var t := Decimal(v) + rest; t != "" && '0' <= t[0] <= '9'
  {
    hide Decimal, Value;
    DecimalIsRead(v);
  }

  /** A number written in decimal is read as itself, whatever blanks come before it
      and whatever that is no digit comes behind it. */
  lemma NumberIsRead(v: int, blanks: string, rest: string)
    requires AllBlank(blanks) && (rest == "" || !('0' <= rest[0] <= '9'))
    ensures Atoi(blanks + Number(v) + rest) == v
  {
    hide Decimal, LeadingDigits, Value, SkipBlanks;
    var d := Decimal(if v < 0 then -v else v) + rest;
    var t := if v < 0 then "-" + d else d;
    assert blanks + Number(v) + rest == blanks + t;
    StartsWithDigit(if v < 0 then -v else v, rest);
    BlanksSkipped(blanks, t);
    DigitsRead(d, if v < 0 then -v else v, rest);
    assert v < 0 ==> t[1..] == d;
  }

  /** A plus sign is read over; a field that starts with anything but a blank, a sign
      or a digit counts as 0. */
  lemma SignsAndJunk(v: nat, s: string)
    ensures Atoi("+" + Decimal(v)) == v
    ensures s != "" && !('0' <= s[0] <= '9') && s[0] !in "+- " && s[0] as int !in [9, 10, 11, 12, 13] ==>
              Atoi(s) == 0
    ensures Atoi("") == 0
  {
    hide Decimal;
    var t := "+" + Decimal(v);
    assert t[1..] == Decimal(v);
    assert Decimal(v) + "" == Decimal(v);
    DigitsRead(Decimal(v), v, "");
  }

  lemma CommaBehind(line: string, i: nat, field: string)
    requires i + |field| < |line| && line[i .. i + |field|] == field && line[i + |field|] == ','
    requires forall k :: 0 <= k < |field| ==> field[k] != ','
    ensures Comma(line, i) == i + |field|
  {
    forall k | i <= k < i + |field| ensures line[k] != ',' {
      assert line[k] == field[k - i];
    }
  }

  lemma NumberAsField(v: int)
    requires -0x8000 <= v <= 0x7FFF
    ensures Field(Number(v)) && Atoi(Number(v)) == v
    ensures forall k :: 0 <= k < |Number(v)| ==> Number(v)[k] != ','
  {
    hide Decimal, Value, Atoi;
    var m := if v < 0 then -v else v;
    NumberIsRead(v, "", "");
    assert "" + Number(v) + "" == Number(v);
    DecimalIsRead(m);
    DecimalLength(m);
    assert Number(v) == if v < 0 then "-" + Decimal(m) else Decimal(m);
  }

  lemma ThreeParts(a: string, b: string, c: string, rest: string)
    ensures var line := a + "," + b + "," + c + "," + rest;
            var c1, c2 := |a|, |a| + 1 + |b|;
            var c3 := c2 + 1 + |c|;
            && c3 < |line|
            && line[.. c1] == line[0 .. c1] == a && line[c1] == ','
            && line[c1 + 1 .. c2] == b && line[c2] == ','
            && line[c2 + 1 .. c3] == c && line[c3] == ','
  {
  }

  /** A line written as three numbers, each with a comma behind it, is read as those
      three numbers in that order. */
  lemma LineIsRead(tl: int, ts: int, n: int, rest: string)
    requires -0x8000 <= tl <= 0x7FFF && -0x8000 <= ts <= 0x7FFF && -0x8000 <= n <= 0x7FFF
    ensures var line := Number(tl) + "," + Number(ts) + "," + Number(n) + "," + rest;
            ConfigLine(line) && Fields(line) == (tl, ts, n)
  {
    hide Number, Field, Atoi, Comma;
    var a, b, c := Number(tl), Number(ts), Number(n);
    var line := a + "," + b + "," + c + "," + rest;
    NumberAsField(tl);
    NumberAsField(ts);
    NumberAsField(n);
    ThreeParts(a, b, c, rest);
    CommaBehind(line, 0, a);
    CommaBehind(line, |a| + 1, b);
    CommaBehind(line, |a| + 1 + |b| + 1, c);
  }

  method NextField(line: string, s1: nat) returns (s2: nat)
    requires s1 <= |line| && Comma(line, s1) < |line|
    ensures s2 == Comma(line, s1)
  {
    s2 := s1;
    while line[s2] != ','
      invariant s1 <= s2 < |line| && Comma(line, s2) == Comma(line, s1)
      decreases |line| - s2
    {
      s2 := s2 + 1;
    }
  }

  /** The cast to 16 bits and the increment give the nearest tick: it wraps to 0
      where the cast value is the largest. */
  method RoundTenths(tenths: nat) returns (t: u16)
    ensures t == (tenths + 5) / 10 % 0x1_0000
    ensures tenths + 5 < 10 * 0x1_0000 ==> 10 * t - 5 <= tenths < 10 * t + 5
  {
    ghost var q := tenths / 10;
    HalfUpTenths(tenths, q);
    OneMore(q);
    t := tenths / 10 % 0x1_0000;
    if tenths % 10 > 4 {
      t := (t + 1) % 0x1_0000;
    }
    if tenths + 5 < 10 * 0x1_0000 {
      InWord((tenths + 5) / 10);
    }
  }

  lemma HalfUpTenths(tenths: nat, q: nat)
    requires q == tenths / 10
    ensures (tenths + 5) / 10 == if tenths % 10 > 4 then q + 1 else q
  {
  }

  lemma OneMore(q: nat)
    ensures (q % 0x1_0000 + 1) % 0x1_0000 == (q + 1) % 0x1_0000
  {
    assert q == 0x1_0000 * (q / 0x1_0000) + q % 0x1_0000;
  }

  /** A line is parsed into its three numbers; what is reported later is what was
      on the line, whenever the arithmetic fits its words. */
  method ParseConfig(line: string, R: nat) returns (cfg: Config)
    requires ConfigLine(line)
    ensures var (tl, ts, n) := Fields(line);
            && cfg == Config(Ticks(R, tl), Ticks(R, ts), n % 256)
            && (R >= 1000 && Fits(R, tl) && Fits(R, ts) && 0 <= n < 256 ==>
                  Printed(R, cfg.tl) == tl && Printed(R, cfg.ts) == ts && cfg.n == n)
  {
    hide TenthTicks, Atoi, Comma, Fits, Printed;
    var s1, commas := 0, 0;
    var tlTmp, tsTmp := 0, 0;
    var n: byte := 0;
    ghost var c1 := Comma(line, 0);
    ghost var c2 := Comma(line, c1 + 1);
    ghost var (tlMs, tsMs, count) := Fields(line);
    assert line[0 .. c1] == line[.. c1];
    while commas < 3
      invariant commas <= 3
      invariant commas == 0 ==> s1 == 0
      invariant commas == 1 ==> s1 == c1 + 1
      invariant commas == 2 ==> s1 == c2 + 1
      invariant commas >= 1 ==> tlTmp == TenthTicks(R, tlMs)
      invariant commas >= 2 ==> tsTmp == TenthTicks(R, tsMs)
      invariant commas >= 3 ==> n == count % 256
    {
      var s2 := NextField(line, s1);
      var value := Atoi(line[s1 .. s2]);
      commas := commas + 1;
      if commas == 1 {
        tlTmp := TenthTicks(R, value);
      } else if commas == 2 {
        tsTmp := TenthTicks(R, value);
      } else {
        n := value % 256;
      }
      s1 := s2 + 1;
    }
    var tl := RoundTenths(tlTmp);
    var ts := RoundTenths(tsTmp);
    cfg := Config(tl, ts, n);
    if R >= 1000 && Fits(R, tlMs) && Fits(R, tsMs) && 0 <= count < 256 {
      RoundTrip(R, tlMs);
      RoundTrip(R, tsMs);
    }
  }
}
