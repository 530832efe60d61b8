/** The string `now_iso8601` builds from a Unix second count: the date-time form of section 5.6 of
    RFC 3339, in UTC and without fractional seconds. */
module Timestamp {
  import opened Common
  import opened Calendar

  const U64_LIMIT := 0x1_0000_0000_0000_0000
  const I64_LIMIT := 0x8000_0000_0000_0000

  /** First second of the year 10000. */
  const LIMIT := 253_402_300_800

  // ---------------------------------------------------------------------------
  // Zero-padded decimal numbers
  // ---------------------------------------------------------------------------

  function Digit(d: nat): (c: char)
    requires d < 10
    ensures IsDigit(c)
  {
    '0' + d as char
  }

  predicate IsDigit(c: char) {
    '0' <= c <= '9'
  }

  function DigitValue(c: char): (d: nat)
    requires IsDigit(c)
    ensures d < 10 && Digit(d) == c
  {
    c as int - '0' as int
  }

  predicate AllDigits(s: string) {
    forall i | 0 <= i < |s| :: IsDigit(s[i])
  }

  /** Rust's `{n:0w}`: decimal digits, padded with zeros to at least `w`. */
  function Padded(n: nat, w: nat): (s: string)
    ensures AllDigits(s) && |s| >= w
    decreases n, w
  {
    if n == 0 && w == 0 then ""
    else Padded(n / 10, if w == 0 then 0 else w - 1) + [Digit(n % 10)]
  }

  function Value(s: string): nat
    requires AllDigits(s)
  {
    if s == "" then 0 else 10 * Value(s[..|s| - 1]) + DigitValue(s[|s| - 1])
  }

  function Pow10(w: nat): (p: nat)
    ensures p >= 1
  {
    if w == 0 then 1 else 10 * Pow10(w - 1)
  }

  lemma {:induction false} PaddedValue(n: nat, w: nat)
    ensures Value(Padded(n, w)) == n
    ensures |Padded(n, w)| == w <==> n < Pow10(w)
    decreases n, w
  {
    if n > 0 || w > 0 {
      var v := if w == 0 then 0 else w - 1;
      PaddedValue(n / 10, v);
      var s := Padded(n / 10, v) + [Digit(n % 10)];
      assert s[..|s| - 1] == Padded(n / 10, v);
    }
  }

  lemma {:induction false} ValuePadded(s: string)
    requires AllDigits(s)
    ensures Padded(Value(s), |s|) == s && Value(s) < Pow10(|s|)
  {
    if s != "" {
      var t, d := s[..|s| - 1], DigitValue(s[|s| - 1]);
      ValuePadded(t);
      assert (10 * Value(t) + d) / 10 == Value(t) && (10 * Value(t) + d) % 10 == d;
      assert s == t + [Digit(d)];
    }
  }

  // ---------------------------------------------------------------------------
  // The formatter
  // ---------------------------------------------------------------------------

  /** A broken-down UTC time. */
  datatype Clock = Clock(date: Date, hour: int, minute: int, second: int)

  function ClockOf(secs: nat): Clock {
    var rem := secs % 86_400;
    Clock(CivilFromDays(secs / 86_400), rem / 3600, rem % 3600 / 60, rem % 60)
  }

  /** One number followed by its separator and the rest of the string. The formatter's numbers are
      never negative (`ClockFields`). */
  function Field(n: int, w: nat, sep: char, rest: string): string {
    Padded(if n >= 0 then n else 0, w) + [sep] + rest
  }

  function Render(c: Clock): string {
    Field(c.date.year, 4, '-', Field(c.date.month, 2, '-', Field(c.date.day, 2, 'T', RenderTime(c))))
  }

  function RenderTime(c: Clock): string {
    Field(c.hour, 2, ':', Field(c.minute, 2, ':', Field(c.second, 2, 'Z', "")))
  }

  function Iso8601(secs: nat): string {
    Render(ClockOf(secs))
  }

  predicate ValidClock(c: Clock) {
    Valid(c.date) && ValidTime(c)
  }

  predicate ValidTime(c: Clock) {
    0 <= c.hour < 24 && 0 <= c.minute < 60 && 0 <= c.second < 60
  }

  function SecondOfDay(c: Clock): int {
    c.hour * 3600 + c.minute * 60 + c.second
  }

  /** The second count of a clock, from the reference calendar's day count. */
  function Seconds(c: Clock): int {
    DayNumber(c.date) * 86_400 + SecondOfDay(c)
  }

  lemma TimeOfDay(rem: int, hour: int, minute: int, second: int)
    requires 0 <= hour < 24 && 0 <= minute < 60 && 0 <= second < 60
    ensures rem == hour * 3600 + minute * 60 + second ==>
            hour == rem / 3600 && minute == rem % 3600 / 60 && second == rem % 60
  {}

  /** The source computes in 64 bits: no second count it can read makes a value overflow. */
  lemma NothingOverflows(secs: nat)
    requires secs < U64_LIMIT
    ensures IntermediatesWithin(secs / 86_400, -I64_LIMIT, I64_LIMIT - 1)
  {
    hide DayValues, EraValues, DateValues, YearValues, EraOf, YearOfEra, DayOfYear;
    IntermediatesBounded(secs / 86_400, I64_LIMIT - 1_000_001);
  }

  /** The clock of a second count is a valid clock, no earlier than 1970, of that second count. */
  lemma ClockFields(secs: nat)
    ensures ValidClock(ClockOf(secs)) && Seconds(ClockOf(secs)) == secs
    ensures ClockOf(secs).date.year >= 1970
  {
    CivilFromDaysCounts(secs / 86_400);
    NotBeforeEpoch(CivilFromDays(secs / 86_400));
    hide CivilFromDays, DayNumber, Valid;
    SplitDay(secs % 86_400);
  }

  lemma SplitDay(rem: int)
    requires 0 <= rem < 86_400
    ensures rem / 3600 < 24 && rem / 3600 * 3600 + rem % 3600 / 60 * 60 + rem % 60 == rem
  {}

  lemma NotBeforeEpoch(d: Date)
    requires Valid(d)
    ensures d.year >= 1970 <==> DayNumber(d) >= 0
  {
    if Before(d, EPOCH) {
      DayNumberMonotone(d, EPOCH);
    } else if Before(EPOCH, d) {
      DayNumberMonotone(EPOCH, d);
    }
  }

  /** Every valid clock from 1970 on is the clock of its own second count. */
  lemma ClockInverts(c: Clock)
    requires ValidClock(c) && c.date.year >= 1970
    ensures Seconds(c) >= 0 && ClockOf(Seconds(c)) == c
  {
    NotBeforeEpoch(c.date);
    CivilFromDaysInverts(c.date);
    hide CivilFromDays, DayNumber, Valid;
    var secs, rem := Seconds(c), SecondOfDay(c);
    assert 0 <= rem < 86_400;
    assert secs / 86_400 == DayNumber(c.date) && secs % 86_400 == rem;
    TimeOfDay(rem, c.hour, c.minute, c.second);
  }

  // ---------------------------------------------------------------------------
  // Length
  // ---------------------------------------------------------------------------

  lemma ShortFields(c: Clock)
    requires ValidClock(c)
    ensures |RenderTime(c)| == 9
    ensures |Padded(c.date.month, 2)| == 2 && |Padded(c.date.day, 2)| == 2
  {
    assert Pow10(2) == 100 by { assert Pow10(1) == 10; }
    PaddedValue(c.hour, 2);
    PaddedValue(c.minute, 2);
    PaddedValue(c.second, 2);
    PaddedValue(c.date.month, 2);
    PaddedValue(c.date.day, 2);
  }

  lemma LimitIsYear10000(secs: nat)
    ensures secs < LIMIT <==> ClockOf(secs).date.year < 10_000
  {
    ClockFields(secs);
    var d := ClockOf(secs).date;
    var limit := Date(10_000, 1, 1);
    LimitDay(limit);
    if Before(d, limit) {
      DayNumberMonotone(d, limit);
    } else if Before(limit, d) {
      DayNumberMonotone(limit, d);
    }
    hide CivilFromDays, DayNumber;
    assert DayNumber(d) * 86_400 <= secs < DayNumber(d) * 86_400 + 86_400;
  }

  lemma LimitDay(limit: Date)
    requires limit == Date(10_000, 1, 1)
    ensures DayNumber(limit) == 2_932_897 && DayNumber(limit) * 86_400 == LIMIT
  {
    JanuaryFirst(10_000);
  }

  /** The output has the 20 characters of the RFC 3339 form exactly for the years the form can
      express; later years print more digits. */
  lemma Length(secs: nat)
    ensures |Iso8601(secs)| >= 20
    ensures |Iso8601(secs)| == 20 <==> secs < LIMIT
  {
    ClockFields(secs);
    LimitIsYear10000(secs);
    var c := ClockOf(secs);
    hide ClockOf, Valid, Seconds;
    ShortFields(c);
    PaddedValue(c.date.year, 4);
    Pow10Of4();
  }

  lemma FieldShape(n: int, w: nat, sep: char, rest: string)
    requires 0 <= n < Pow10(w)
    ensures var s := Field(n, w, sep, rest);
            |s| == w + 1 + |rest| && AllDigits(s[..w]) && s[w] == sep && s[w + 1..] == rest
  {
    PaddedValue(n, w);
    assert Field(n, w, sep, rest)[..w] == Padded(n, w);
  }

  /** The date-time form of section 5.6 of RFC 3339: separators at these places, digits elsewhere. */
  predicate DateTimeForm(s: string) {
    |s| == 20 && s[4] == '-' && s[7] == '-' && s[10] == 'T' && s[13] == ':' && s[16] == ':' && s[19] == 'Z' &&
    forall i | 0 <= i < 20 && i !in {4, 7, 10, 13, 16, 19} :: IsDigit(s[i])
  }

  lemma SixFields(s: string, s1: string, s2: string, s3: string, s4: string, s5: string)
    requires |s| == 20 && s1 == s[5..] && s2 == s1[3..] && s3 == s2[3..] && s4 == s3[3..] && s5 == s4[3..]
    requires AllDigits(s[..4]) && s[4] == '-' && AllDigits(s1[..2]) && s1[2] == '-'
    requires AllDigits(s2[..2]) && s2[2] == 'T' && AllDigits(s3[..2]) && s3[2] == ':'
    requires AllDigits(s4[..2]) && s4[2] == ':' && AllDigits(s5[..2]) && s5[2] == 'Z'
    ensures DateTimeForm(s)
  {}

  /** Below the limit the output has the date-time form. */
  lemma Form(secs: nat)
    requires secs < LIMIT
    ensures DateTimeForm(Iso8601(secs))
  {
    ClockFields(secs);
    LimitIsYear10000(secs);
    var c := ClockOf(secs);
    hide ClockOf, Seconds;
    RenderForm(c);
  }

  lemma RenderForm(c: Clock)
    requires ValidClock(c) && 0 <= c.date.year < 10_000
    ensures DateTimeForm(Render(c))
  {
    Pow10Of4();
    hide Field, AllDigits, DateTimeForm;
    var s5 := Field(c.second, 2, 'Z', "");
    var s4 := Field(c.minute, 2, ':', s5);
    var s3 := Field(c.hour, 2, ':', s4);
    var s2 := Field(c.date.day, 2, 'T', s3);
    var s1 := Field(c.date.month, 2, '-', s2);
    FieldShape(c.second, 2, 'Z', "");
    FieldShape(c.minute, 2, ':', s5);
    FieldShape(c.hour, 2, ':', s4);
    FieldShape(c.date.day, 2, 'T', s3);
    FieldShape(c.date.month, 2, '-', s2);
    FieldShape(c.date.year, 4, '-', s1);
    SixFields(Render(c), s1, s2, s3, s4, s5);
  }

  lemma Pow10Of4()
    ensures Pow10(2) == 100 && Pow10(4) == 10_000
  {}

  // ---------------------------------------------------------------------------
  // Parsing it back
  // ---------------------------------------------------------------------------

  /** A `w`-digit number, its separator, and what follows. */
  function TakeField(s: string, w: nat, sep: char): Option<(nat, string)> {
    if |s| > w && AllDigits(s[..w]) && s[w] == sep then Some((Value(s[..w]), s[w + 1..])) else None
  }

  function ParseDate(s: string): Option<(Date, string)> {
    match TakeField(s, 4, '-')
    case None => None
    case Some((year, s1)) =>
      match TakeField(s1, 2, '-')
      case None => None
      case Some((month, s2)) =>
        match TakeField(s2, 2, 'T')
        case None => None
        case Some((day, s3)) => Some((Date(year, month, day), s3))
  }

  function ParseClock(s: string): Option<Clock> {
    match ParseDate(s)
    case None => None
    case Some((date, s3)) =>
      match TakeField(s3, 2, ':')
      case None => None
      case Some((hour, s4)) =>
        match TakeField(s4, 2, ':')
        case None => None
        case Some((minute, s5)) =>
          match TakeField(s5, 2, 'Z')
          case None => None
          case Some((second, s6)) => if s6 == "" then Some(Clock(date, hour, minute, second)) else None
  }

  /** The second count of a UTC date-time string, read with the reference calendar. */
  function Parse(s: string): Option<int> {
    match ParseClock(s)
    case Some(c) => if ValidClock(c) then Some(Seconds(c)) else None
    case None => None
  }

  lemma TakeOwnField(n: nat, w: nat, sep: char, rest: string)
    requires n < Pow10(w)
    ensures TakeField(Field(n, w, sep, rest), w, sep) == Some((n, rest))
  {
    PaddedValue(n, w);
    var s := Field(n, w, sep, rest);
    assert s[..w] == Padded(n, w) && s[w] == sep && s[w + 1..] == rest;
  }

  lemma FieldTaken(s: string, w: nat, sep: char)
    ensures var r := TakeField(s, w, sep);
            r.Some? ==> s == Field(r.value.0, w, sep, r.value.1) && r.value.0 < Pow10(w)
  {
    if TakeField(s, w, sep).Some? {
      ValuePadded(s[..w]);
      assert s == s[..w] + [sep] + s[w + 1..];
    }
  }

  lemma ParseRendered(c: Clock)
    requires ValidClock(c) && 0 <= c.date.year < 10_000
    ensures ParseClock(Render(c)) == Some(c)
  {
    Pow10Of4();
    hide TakeField, Field;
    var s6 := Field(c.second, 2, 'Z', "");
    var s5 := Field(c.minute, 2, ':', s6);
    var s4 := RenderTime(c);
    var s2 := Field(c.date.day, 2, 'T', s4);
    var s1 := Field(c.date.month, 2, '-', s2);
    TakeOwnField(c.date.year, 4, '-', s1);
    TakeOwnField(c.date.month, 2, '-', s2);
    TakeOwnField(c.date.day, 2, 'T', s4);
    TakeOwnField(c.hour, 2, ':', s5);
    TakeOwnField(c.minute, 2, ':', s6);
    TakeOwnField(c.second, 2, 'Z', "");
  }

  lemma RenderParsed(s: string)
    requires ParseClock(s).Some?
    ensures Render(ParseClock(s).value) == s && 0 <= ParseClock(s).value.date.year < 10_000
  {
    Pow10Of4();
    hide TakeField, Field;
    FieldTaken(s, 4, '-');
    var s1 := TakeField(s, 4, '-').value.1;
    FieldTaken(s1, 2, '-');
    var s2 := TakeField(s1, 2, '-').value.1;
    FieldTaken(s2, 2, 'T');
    var s3 := TakeField(s2, 2, 'T').value.1;
    FieldTaken(s3, 2, ':');
    var s4 := TakeField(s3, 2, ':').value.1;
    FieldTaken(s4, 2, ':');
    var s5 := TakeField(s4, 2, ':').value.1;
    FieldTaken(s5, 2, 'Z');
  }

  /** Reading the string back gives the second count it was made from. */
  lemma ParseInvertsFormat(secs: nat)
    requires secs < LIMIT
    ensures Parse(Iso8601(secs)) == Some(secs)
  {
    ClockFields(secs);
    LimitIsYear10000(secs);
    hide ClockOf, Seconds, Valid;
    ParseRendered(ClockOf(secs));
  }

  /** Every date-time string from 1970 on is the formatter's output for the second it names. */
  lemma FormatInvertsParse(s: string)
    requires Parse(s).Some? && Parse(s).value >= 0
    ensures Parse(s).value < LIMIT && Iso8601(Parse(s).value) == s
  {
    var c := ParseClock(s).value;
    RenderParsed(s);
    NotBeforeEpoch(c.date);
    hide DayNumber, Valid, CivilFromDays;
    assert DayNumber(c.date) >= 0;
    ClockInverts(c);
    LimitIsYear10000(Seconds(c));
  }

  // ---------------------------------------------------------------------------
  // String order is time order
  // ---------------------------------------------------------------------------

  predicate LexLess(a: string, b: string) {
    if a == "" || b == "" then a == "" && b != ""
    else a[0] < b[0] || (a[0] == b[0] && LexLess(a[1..], b[1..]))
  }

  lemma {:induction false} LexConcat(a: string, b: string, x: string, y: string)
    requires |a| == |b|
    ensures LexLess(a + x, b + y) <==> LexLess(a, b) || (a == b && LexLess(x, y))
  {
    if a == "" {
      assert a + x == x && b + y == y;
    } else {
      assert (a + x)[1..] == a[1..] + x && (b + y)[1..] == b[1..] + y;
      LexConcat(a[1..], b[1..], x, y);
      assert a == [a[0]] + a[1..] && b == [b[0]] + b[1..];
    }
  }

  lemma {:induction false} PaddedOrder(m: nat, n: nat, w: nat)
    requires m < Pow10(w) && n < Pow10(w)
    ensures LexLess(Padded(m, w), Padded(n, w)) <==> m < n
    decreases w
  {
    PaddedValue(m, w);
    PaddedValue(n, w);
    if w > 0 {
      PaddedValue(m / 10, w - 1);
      PaddedValue(n / 10, w - 1);
      PaddedOrder(m / 10, n / 10, w - 1);
      var p, q := Padded(m / 10, w - 1), Padded(n / 10, w - 1);
      assert p == q <==> m / 10 == n / 10;
      hide Padded, LexLess, Value, Pow10;
      LexConcat(p, q, [Digit(m % 10)], [Digit(n % 10)]);
      DigitOrder(m % 10, n % 10);
      assert Padded(m, w) == p + [Digit(m % 10)] && Padded(n, w) == q + [Digit(n % 10)] by {
        PaddedLast(m, w);
        PaddedLast(n, w);
      }
      assert m < n <==> m / 10 < n / 10 || (m / 10 == n / 10 && m % 10 < n % 10);
    }
  }

  lemma PaddedLast(n: nat, w: nat)
    requires w > 0
    ensures Padded(n, w) == Padded(n / 10, w - 1) + [Digit(n % 10)]
  {}

  lemma DigitOrder(m: nat, n: nat)
    requires m < 10 && n < 10
    ensures LexLess([Digit(m)], [Digit(n)]) <==> m < n
  {}

  lemma FieldOrder(m: nat, n: nat, w: nat, sep: char, x: string, y: string)
    requires m < Pow10(w) && n < Pow10(w)
    ensures LexLess(Field(m, w, sep, x), Field(n, w, sep, y)) <==> m < n || (m == n && LexLess(x, y))
  {
    PaddedValue(m, w);
    PaddedValue(n, w);
    PaddedOrder(m, n, w);
    NotLessThanItself([sep]);
    var p, q := Padded(m, w), Padded(n, w);
    assert p == q <==> m == n;
    assert |p| == |q| == w;
    hide Padded, Pow10, Value, LexLess;
    LexConcat(p + [sep], q + [sep], x, y);
    LexConcat(p, q, [sep], [sep]);
    assert (p + [sep])[..w] == p && (q + [sep])[..w] == q;
  }

  lemma NotLessThanItself(s: string)
    requires |s| <= 1
    ensures !LexLess(s, s)
  {}

  lemma RenderTimeOrder(a: Clock, b: Clock)
    requires ValidTime(a) && ValidTime(b)
    ensures LexLess(RenderTime(a), RenderTime(b)) <==> SecondOfDay(a) < SecondOfDay(b)
  {
    Pow10Of4();
    hide LexLess, Field;
    var a6, b6 := Field(a.second, 2, 'Z', ""), Field(b.second, 2, 'Z', "");
    FieldOrder(a.second, b.second, 2, 'Z', "", "");
    NotLessThanItself("");
    FieldOrder(a.minute, b.minute, 2, ':', a6, b6);
    FieldOrder(a.hour, b.hour, 2, ':', Field(a.minute, 2, ':', a6), Field(b.minute, 2, ':', b6));
  }

  // --- Years of any width ---

  /** How many characters the year of `secs` takes. */
  function YearWidth(secs: nat): nat {
    |YearText(ClockOf(secs))|
  }

  function YearText(c: Clock): string {
    Padded(if c.date.year >= 0 then c.date.year else 0, 4)
  }

  lemma {:induction false} Pow10Grows(m: nat, n: nat)
    requires m < n
    ensures Pow10(m) < Pow10(n) && 10 * Pow10(m) <= Pow10(n)
    decreases n
  {
    if m < n - 1 {
      Pow10Grows(m, n - 1);
    }
  }

  /** Beyond the minimal width a number takes only the digits its value needs. */
  lemma {:induction false} PaddedWidth(n: nat, w: nat)
    ensures var width := |Padded(n, w)|;
            n < Pow10(width) && (width > w ==> n >= Pow10(width - 1)) && Padded(n, width) == Padded(n, w)
    decreases n, w
  {
    if n > 0 || w > 0 {
      var v := if w == 0 then 0 else w - 1;
      PaddedWidth(n / 10, v);
      var width := |Padded(n, w)|;
      assert width == |Padded(n / 10, v)| + 1;
      assert n < 10 * Pow10(width - 1);
      if width > w {
        assert width >= 2 ==> n >= 10 * Pow10(width - 2);
      }
    }
  }

  lemma WidthMonotone(m: nat, n: nat, w: nat)
    requires m <= n
    ensures |Padded(m, w)| <= |Padded(n, w)|
  {
    PaddedWidth(m, w);
    PaddedWidth(n, w);
    var x, y := |Padded(m, w)|, |Padded(n, w)|;
    hide Padded, Pow10;
    if x > y + 1 {
      Pow10Grows(y, x - 1);
    }
  }

  /** `n` without its last `k` digits. */
  function Leading(n: nat, k: nat): nat {
    if k == 0 then n else Leading(n / 10, k - 1)
  }

  lemma {:induction false} LeadingIsQuotient(n: nat, k: nat)
    ensures Leading(n, k) == n as int / Pow10(k)
    decreases k
  {
    if k > 0 {
      LeadingIsQuotient(n / 10, k - 1);
      DivideByTen(n, Pow10(k - 1));
    }
  }

  lemma DivideByTen(n: int, p: int)
    requires n >= 0 && p >= 1
    ensures n / 10 / p == n / (10 * p)
  {
    var q, r := n / 10 / p, n / 10 % p;
    assert n == 10 * (p * q + r) + n % 10;
    assert n == (10 * p) * q + (10 * r + n % 10);
    UniqueQuotient(n, 10 * p, q, 10 * r + n % 10);
  }

  lemma UniqueQuotient(n: int, d: int, q: int, r: int)
    requires n == d * q + r && 0 <= r < d
    ensures n / d == q
  {
    var x := n / d - q;
    assert d * x == d * (n / d) - d * q;
    assert -d < d * x && d * x < d;
    ScaledAway(d, x);
  }

  lemma ScaledAway(d: int, x: int)
    requires d >= 0
    ensures x >= 1 ==> d * x >= d
    ensures x <= -1 ==> d * x <= -d
  {}

  predicate Leads(s: string, t: string) {
    |s| <= |t| && t[..|s|] == s
  }

  lemma {:induction false} LeadingDigits(n: nat, w: nat, k: nat)
    ensures Leads(Padded(Leading(n, k), w), Padded(n, w + k))
    ensures |Padded(n, w + k)| == |Padded(Leading(n, k), w)| + k
    decreases k
  {
    if k > 0 {
      LeadingDigits(n / 10, w, k - 1);
      PaddedLast(n, w + k);
      hide Padded;
    }
  }

  /** A shorter year sorts before a longer one exactly when it is at most the leading digits of it,
      since `-` sorts before every digit. */
  lemma WiderField(m: nat, q: nat, w: nat, n: nat, v: nat, x: string, y: string)
    requires m < Pow10(w) && q < Pow10(w) && w < |Padded(n, v)| && Leads(Padded(q, w), Padded(n, v))
    ensures LexLess(Field(m, w, '-', x), Field(n, v, '-', y)) <==> m <= q
    ensures LexLess(Field(n, v, '-', y), Field(m, w, '-', x)) <==> q < m
  {
    hide LexLess, Pow10, Padded;
    PaddedValue(m, w);
    PaddedValue(q, w);
    PaddedOrder(m, q, w);
    PaddedOrder(q, m, w);
    var a, b, s := Padded(m, w), Padded(q, w), Padded(n, v);
    hide Value;
    assert a == b <==> m == q;
    SplitAt(s, w);
    DashMeetsDigit(a, b, s[w..], x, y);
    assert b + s[w..] == s;
  }

  lemma SplitAt(s: string, w: nat)
    requires AllDigits(s) && w < |s|
    ensures AllDigits(s[w..]) && s[w..] != "" && s == s[..w] + s[w..]
  {}

  lemma DashMeetsDigit(a: string, b: string, more: string, x: string, y: string)
    requires |a| == |b| && more != "" && AllDigits(more)
    ensures LexLess(a + ['-'] + x, b + more + ['-'] + y) <==> LexLess(a, b) || a == b
    ensures LexLess(b + more + ['-'] + y, a + ['-'] + x) <==> LexLess(b, a)
  {
    var s, t := ['-'] + x, more + ['-'] + y;
    DashBeforeDigit(s, t);
    hide LexLess;
    LexConcat(a, b, s, t);
    LexConcat(b, a, t, s);
    assert a + s == a + ['-'] + x && b + t == b + more + ['-'] + y;
  }

  lemma DashBeforeDigit(s: string, t: string)
    requires s != "" && t != "" && s[0] == '-' && IsDigit(t[0])
    ensures LexLess(s, t) && !LexLess(t, s)
  {}

  lemma EqualWidth(a: Clock, b: Clock)
    requires ValidClock(a) && ValidClock(b) && a.date.year >= 0 && b.date.year >= 0
    requires |YearText(a)| == |YearText(b)|
    ensures LexLess(Render(a), Render(b)) <==>
            Before(a.date, b.date) || (a.date == b.date && SecondOfDay(a) < SecondOfDay(b))
  {
    Pow10Of4();
    RenderTimeOrder(a, b);
    var w := |YearText(a)|;
    PaddedWidth(a.date.year, 4);
    PaddedWidth(b.date.year, 4);
    hide LexLess, RenderTime, Padded;
    var s, t := RenderTime(a), RenderTime(b);
    var x, y := Field(a.date.day, 2, 'T', s), Field(b.date.day, 2, 'T', t);
    FieldOrder(a.date.day, b.date.day, 2, 'T', s, t);
    FieldOrder(a.date.month, b.date.month, 2, '-', x, y);
    FieldOrder(a.date.year, b.date.year, w, '-',
               Field(a.date.month, 2, '-', x), Field(b.date.month, 2, '-', y));
  }

  lemma WiderYear(a: Clock, b: Clock)
    requires a.date.year >= 0 && b.date.year >= 0
    requires |YearText(a)| < |YearText(b)|
    ensures var q := b.date.year / Pow10(|YearText(b)| - |YearText(a)|);
            (LexLess(Render(a), Render(b)) <==> a.date.year <= q) &&
            (LexLess(Render(b), Render(a)) <==> q < a.date.year)
  {
    hide LexLess, RenderTime, Padded, Pow10, Value;
    var m, n, w, v := a.date.year, b.date.year, |YearText(a)|, |YearText(b)|;
    var q := Leading(n, v - w);
    LeadingIsQuotient(n, v - w);
    PaddedWidth(m, 4);
    PaddedWidth(n, 4);
    LeadingDigits(n, w, v - w);
    PaddedValue(q, w);
    var x := Field(a.date.month, 2, '-', Field(a.date.day, 2, 'T', RenderTime(a)));
    var y := Field(b.date.month, 2, '-', Field(b.date.day, 2, 'T', RenderTime(b)));
    hide Leads;
    WiderField(m, q, w, n, v, x, y);
    OwnWidth(m, x);
    OwnWidth(n, y);
    hide Field;
  }

  lemma OwnWidth(n: nat, rest: string)
    ensures Field(n, 4, '-', rest) == Field(n, |Padded(n, 4)|, '-', rest)
  {
    PaddedWidth(n, 4);
  }

  /** When one output sorts before another, for all times: with years of equal width the order is
      time order; of two years of different width, the wider one counts only by its leading digits. */
  lemma StringOrderExactly(a: nat, b: nat)
    ensures var x, y := ClockOf(a).date.year, ClockOf(b).date.year;
            var v, w := YearWidth(a), YearWidth(b);
            LexLess(Iso8601(a), Iso8601(b)) <==>
            if v == w then a < b else if v < w then x <= y / Pow10(w - v) else x / Pow10(v - w) < y
  {
    ClockFields(a);
    ClockFields(b);
    hide ClockOf, DayNumber, Valid, LexLess, CivilFromDays, Render, Before, YearText;
    var c, d := ClockOf(a), ClockOf(b);
    if YearWidth(a) == YearWidth(b) {
      EqualWidth(c, d);
      ClockOrder(c, d);
    } else if YearWidth(a) < YearWidth(b) {
      WiderYear(c, d);
    } else {
      WiderYear(d, c);
    }
  }

  lemma LaterIsNoShorter(a: nat, b: nat)
    requires a <= b
    ensures ClockOf(a).date.year <= ClockOf(b).date.year && YearWidth(a) <= YearWidth(b)
  {
    ClockFields(a);
    ClockFields(b);
    hide ClockOf, DayNumber, Valid, CivilFromDays;
    var c, d := ClockOf(a), ClockOf(b);
    ClockOrder(d, c);
    WidthMonotone(c.date.year, d.date.year, 4);
  }

  /** The later of two times sorts after the earlier one exactly when its year is no wider or the
      leading digits of its year are at least the earlier year. */
  lemma StringOrderAgreesIff(a: nat, b: nat)
    requires a < b
    ensures YearWidth(a) <= YearWidth(b)
    ensures LexLess(Iso8601(a), Iso8601(b)) <==>
            YearWidth(a) == YearWidth(b) ||
            ClockOf(a).date.year <= ClockOf(b).date.year / Pow10(YearWidth(b) - YearWidth(a))
  {
    LaterIsNoShorter(a, b);
    StringOrderExactly(a, b);
  }

  lemma FourWide(secs: nat)
    ensures YearWidth(secs) >= 4 && (YearWidth(secs) == 4 <==> secs < LIMIT)
  {
    ClockFields(secs);
    LimitIsYear10000(secs);
    Pow10Of4();
    PaddedValue(ClockOf(secs).date.year, 4);
  }

  /** Among the 20-character outputs, comparing strings compares times. */
  lemma StringOrderIsTimeOrder(a: nat, b: nat)
    requires a < LIMIT && b < LIMIT
    ensures LexLess(Iso8601(a), Iso8601(b)) <==> a < b
  {
    FourWide(a);
    FourWide(b);
    hide ClockOf, LexLess, YearWidth;
    StringOrderExactly(a, b);
  }

  lemma ClockOrder(x: Clock, y: Clock)
    requires ValidClock(x) && ValidClock(y)
    ensures Seconds(x) < Seconds(y) <==>
            Before(x.date, y.date) || (x.date == y.date && SecondOfDay(x) < SecondOfDay(y))
  {
    if Before(x.date, y.date) {
      DayNumberMonotone(x.date, y.date);
    } else if Before(y.date, x.date) {
      DayNumberMonotone(y.date, x.date);
    }
    hide DayNumber, Valid;
    assert 0 <= SecondOfDay(x) < 86_400 && 0 <= SecondOfDay(y) < 86_400;
  }

  lemma FirstSecondPastLimit(late: nat, limit: Date)
    requires late == LIMIT && limit == Date(10_000, 1, 1)
    ensures ClockOf(late).date.year == 10_000
  {
    hide CivilFromDays, DayNumber;
    LimitDay(limit);
    CivilFromDaysInverts(limit);
    assert late / 86_400 == DayNumber(limit);
  }

  /** Every second of the year 10000 sorts before every second below the limit. */
  lemma YearTenThousandSortsFirst(late: nat, secs: nat)
    requires ClockOf(late).date.year == 10_000 && secs < LIMIT
    ensures secs < late && LexLess(Iso8601(late), Iso8601(secs)) && !LexLess(Iso8601(secs), Iso8601(late))
  {
    ClockFields(secs);
    LimitIsYear10000(late);
    FourWide(secs);
    FourWide(late);
    PaddedWidth(10_000, 4);
    var w := YearWidth(late);
    assert w == |Padded(10_000, 4)|;
    hide ClockOf, LexLess, Padded, Valid, DayNumber;
    Pow10Of4();
    if w > 5 {
      Pow10Grows(4, w - 1);
    }
    assert Pow10(1) == 10;
    StringOrderExactly(late, secs);
    StringOrderExactly(secs, late);
  }

  ghost predicate OrderedBelow(n: nat) {
    forall a: nat, b: nat | a < n && b < n :: LexLess(Iso8601(a), Iso8601(b)) <==> a < b
  }

  /** The limit is exact: string order is time order on all times below `n` exactly when no time
      below `n` reaches the year 10000. */
  lemma StringOrderHoldsBelowIff(n: nat)
    ensures OrderedBelow(n) <==> n <= LIMIT
  {
    hide Iso8601, LexLess, ClockOf;
    if n <= LIMIT {
      forall a: nat, b: nat | a < n && b < n ensures LexLess(Iso8601(a), Iso8601(b)) <==> a < b {
        StringOrderIsTimeOrder(a, b);
      }
    } else {
      FirstSecondPastLimit(LIMIT, Date(10_000, 1, 1));
      YearTenThousandSortsFirst(LIMIT, 0);
      assert !(LexLess(Iso8601(0), Iso8601(LIMIT)) <==> 0 < LIMIT);
    }
  }
}
