/**
 * The TIMESTAMP branch of the result normalizer's value coercion: reading
 * "YYYY-MM-DD HH:MM:SS[.f] UTC" (the `strptime` formats) and ISO-8601 text
 * (`datetime.fromisoformat`), and writing the canonical UTC form that
 * `isoformat()` produces once its "+00:00" offset is replaced by "Z".
 *
 * Grammar accepted here: four-digit year, two-digit month, day, hour,
 * minute and second, an optional fraction of one to six digits, and for the
 * ISO reading a 'T' or ' ' separator and an optional "+00:00" offset.
 */
module Timestamps {
  import opened Common
  import opened Text

  datatype DateTime = DateTime(year: nat, month: nat, day: nat,
                               hour: nat, minute: nat, second: nat, micro: nat)

  predicate IsLeap(y: nat) {
    y % 4 == 0 && (y % 100 != 0 || y % 400 == 0)
  }

  function DaysInMonth(y: nat, m: nat): nat
    requires 1 <= m <= 12
  {
    if m == 2 then (if IsLeap(y) then 29 else 28)
    else if m == 4 || m == 6 || m == 9 || m == 11 then 30
    else 31
  }

  /** The ranges `datetime` accepts; anything else is a ValueError. */
  predicate Valid(dt: DateTime) {
    && 1 <= dt.year <= 9999
    && 1 <= dt.month <= 12
    && 1 <= dt.day <= DaysInMonth(dt.year, dt.month)
    && dt.hour < 24 && dt.minute < 60 && dt.second < 60
    && dt.micro < 1000000
  }

  predicate IsDigit(c: char) {
    '0' <= c <= '9'
  }

  predicate AllDigits(s: string) {
    forall i :: 0 <= i < |s| ==> IsDigit(s[i])
  }

  function Pow10(k: nat): (r: nat)
    ensures r >= 1
  {
    if k == 0 then 1 else 10 * Pow10(k - 1)
  }

  /** The number a string of decimal digits spells. */
  function DigitsValue(s: string): nat
    requires AllDigits(s)
  {
    if s == [] then 0 else DigitsValue(s[..|s| - 1]) * 10 + (s[|s| - 1] as int - '0' as int)
  }

  function DigitChar(d: nat): char
    requires d < 10
  {
    ('0' as int + d) as char
  }

  /** `n` written with exactly `width` digits, zero-padded on the left (`%0*d`). */
  function Pad(n: nat, width: nat): (r: string)
    ensures |r| == width && AllDigits(r)
  {
    if width == 0 then "" else Pad(n / 10, width - 1) + [DigitChar(n % 10)]
  }

  lemma {:induction false} PadValue(n: nat, width: nat)
    requires n < Pow10(width)
    ensures DigitsValue(Pad(n, width)) == n
  {
    if width > 0 {
      PadValue(n / 10, width - 1);
      var p := Pad(n, width);
      assert p[..|p| - 1] == Pad(n / 10, width - 1);
    }
  }

  // ---------------------------------------------------------------- writing

  function DatePart(dt: DateTime): string {
    Pad(dt.year, 4) + "-" + Pad(dt.month, 2) + "-" + Pad(dt.day, 2)
  }

  function ClockPart(dt: DateTime): string {
    Pad(dt.hour, 2) + ":" + Pad(dt.minute, 2) + ":" + Pad(dt.second, 2)
  }

  /** `isoformat` prints six fraction digits, and none when the microseconds are zero. */
  function FracPart(micro: nat): string {
    if micro == 0 then "" else "." + Pad(micro, 6)
  }

  /** `dt.isoformat()` of a naive datetime. */
  function FormatNaive(dt: DateTime): string {
    DatePart(dt) + "T" + ClockPart(dt) + FracPart(dt.micro)
  }

  /** `dt.isoformat().replace("+00:00", "Z")` of a UTC datetime. */
  function Format(dt: DateTime): string {
    FormatNaive(dt) + "Z"
  }

  // ---------------------------------------------------------------- reading

  function ParseDate(s: string): Option<(nat, nat, nat)> {
    if |s| == 10 && AllDigits(s[..4]) && s[4] == '-' && AllDigits(s[5..7]) && s[7] == '-' && AllDigits(s[8..])
    then Some((DigitsValue(s[..4]), DigitsValue(s[5..7]), DigitsValue(s[8..])))
    else None
  }

  function ParseClock(s: string): Option<(nat, nat, nat)> {
    if |s| == 8 && AllDigits(s[..2]) && s[2] == ':' && AllDigits(s[3..5]) && s[5] == ':' && AllDigits(s[6..])
    then Some((DigitsValue(s[..2]), DigitsValue(s[3..5]), DigitsValue(s[6..])))
    else None
  }

  /** Nothing, or '.' and one to six digits scaled to microseconds ("5" is 500000). */
  function ParseFrac(s: string): Option<nat> {
    if s == [] then Some(0)
    else if s[0] == '.' && 1 <= |s| - 1 <= 6 && AllDigits(s[1..])
    then Some(DigitsValue(s[1..]) * Pow10(6 - (|s| - 1)))
    else None
  }

  /** Date, separator, clock and optional fraction, validated like `datetime(...)`.
      `allowT` admits 'T' as well as ' ' between date and clock. */
  function ParseNaive(s: string, allowT: bool): (r: Option<DateTime>)
    ensures r.Some? ==> Valid(r.value)
  {
    if |s| < 19 || !(s[10] == ' ' || (allowT && s[10] == 'T')) then None
    else match (ParseDate(s[..10]), ParseClock(s[11..19]), ParseFrac(s[19..]))
      case (Some(date), Some(clock), Some(us)) =>
        var dt := DateTime(date.0, date.1, date.2, clock.0, clock.1, clock.2, us);
        if Valid(dt) then Some(dt) else None
      case _ => None
  }

  /** `datetime.strptime(s, "%Y-%m-%d %H:%M:%S.%f")`, then the same without "%f". */
  function Strptime(s: string): (r: Option<DateTime>)
    ensures r.Some? ==> Valid(r.value)
  {
    ParseNaive(s, false)
  }

  /** `datetime.fromisoformat(iso)`, naive or with a "+00:00" offset. */
  function FromIsoFormat(iso: string): (r: Option<DateTime>)
    ensures r.Some? ==> Valid(r.value)
  {
    if EndsWith(iso, "+00:00") then ParseNaive(iso[..|iso| - 6], true) else ParseNaive(iso, true)
  }

  /** `s.replace("Z", "+00:00")` */
  function ReplaceZ(s: string): string {
    if s == [] then "" else (if s[0] == 'Z' then "+00:00" else [s[0]]) + ReplaceZ(s[1..])
  }

  /** The TIMESTAMP coercion of a string: Some(canonical text) when one of the
      readings succeeds, None when every reading fails (the caller then keeps
      the original value). It never fails otherwise. */
  function CoerceTimestamp(s: string): (r: Option<string>)
    ensures r.Some? ==> exists dt :: Valid(dt) && r.value == Format(dt)
  {
    var t := if EndsWith(s, " UTC") then s[..|s| - 4] else s;
    var utc := if EndsWith(s, " UTC") then Strptime(t) else None;
    if utc.Some? then Some(Format(utc.value))
    else match FromIsoFormat(ReplaceZ(t))
      case Some(dt) => Some(Format(dt))
      case None => None
  }

  // ---------------------------------------------------------------- proofs

  lemma {:induction false} ReplaceZAppend(a: string, b: string)
    ensures ReplaceZ(a + b) == ReplaceZ(a) + ReplaceZ(b)
  {
    if a != [] {
      assert (a + b)[1..] == a[1..] + b;
      ReplaceZAppend(a[1..], b);
    } else {
      assert a + b == b;
    }
  }

  lemma {:induction false} ReplaceZNoZ(s: string)
    requires 'Z' !in s
    ensures ReplaceZ(s) == s
  {
    if s != [] {
      ReplaceZNoZ(s[1..]);
    }
  }

  lemma NaiveHasNoZ(dt: DateTime)
    ensures 'Z' !in FormatNaive(dt)
  {
    var s := FormatNaive(dt);
    forall i | 0 <= i < |s| ensures s[i] != 'Z' {
      assert s[i] in "0123456789-T:.";
    }
  }

  lemma {:induction false} FracRoundTrip(micro: nat)
    requires micro < 1000000
    ensures ParseFrac(FracPart(micro)) == Some(micro)
  {
    if micro != 0 {
      var f := FracPart(micro);
      assert f[1..] == Pad(micro, 6);
      PadValue(micro, 6);
    }
  }

  /** Reading back date, separator, clock and a fraction text that denotes
      the microseconds gives the same datetime. */
  lemma ParseWritten(dt: DateTime, sep: char, allowT: bool, f: string)
    requires Valid(dt)
    requires sep == ' ' || (allowT && sep == 'T')
    requires ParseFrac(f) == Some(dt.micro)
    ensures ParseNaive(DatePart(dt) + [sep] + ClockPart(dt) + f, allowT) == Some(dt)
  {
    var d, c := DatePart(dt), ClockPart(dt);
    var s := d + [sep] + c + f;
    assert s[..10] == d && s[10] == sep && s[11..19] == c && s[19..] == f;
    ParseDateWritten(dt);
    ParseClockWritten(dt);
  }

  /** The date written by `DatePart` reads back. */
  lemma ParseDateWritten(dt: DateTime)
    requires dt.year < 10000 && dt.month < 100 && dt.day < 100
    ensures ParseDate(DatePart(dt)) == Some((dt.year, dt.month, dt.day))
  {
    var d := DatePart(dt);
    assert d[..4] == Pad(dt.year, 4) && d[5..7] == Pad(dt.month, 2) && d[8..] == Pad(dt.day, 2);
    PadValue(dt.year, 4);
    PadValue(dt.month, 2);
    PadValue(dt.day, 2);
  }

  /** The clock written by `ClockPart` reads back. */
  lemma ParseClockWritten(dt: DateTime)
    requires dt.hour < 100 && dt.minute < 100 && dt.second < 100
    ensures ParseClock(ClockPart(dt)) == Some((dt.hour, dt.minute, dt.second))
  {
    var c := ClockPart(dt);
    assert c[..2] == Pad(dt.hour, 2) && c[3..5] == Pad(dt.minute, 2) && c[6..] == Pad(dt.second, 2);
    PadValue(dt.hour, 2);
    PadValue(dt.minute, 2);
    PadValue(dt.second, 2);
  }

  /** Reading back what `FormatNaive` wrote gives the same datetime. */
  lemma ParseFormatNaive(dt: DateTime, sep: char, allowT: bool)
    requires Valid(dt)
    requires sep == ' ' || (allowT && sep == 'T')
    ensures ParseNaive(DatePart(dt) + [sep] + ClockPart(dt) + FracPart(dt.micro), allowT) == Some(dt)
  {
    FracRoundTrip(dt.micro);
    ParseWritten(dt, sep, allowT, FracPart(dt.micro));
  }

  /** Canonical "...Z" text is left as it is: the coercion is the identity on its own output. */
  lemma CanonicalUnchanged(dt: DateTime)
    requires Valid(dt)
    ensures CoerceTimestamp(Format(dt)) == Some(Format(dt))
  {
    var n := FormatNaive(dt);
    var s := Format(dt);
    assert !EndsWith(s, " UTC") by { assert s[|s| - 1] == 'Z'; }
    NaiveHasNoZ(dt);
    ReplaceZNoZ(n);
    ReplaceZAppend(n, "Z");
    assert ReplaceZ("Z") == "+00:00";
    var iso := n + "+00:00";
    assert EndsWith(iso, "+00:00");
    assert iso[..|iso| - 6] == n;
    ParseFormatNaive(dt, 'T', true);
  }

  /** Naive ISO text is read as UTC: it comes back with a "Z" appended. */
  lemma NaiveGetsZ(dt: DateTime)
    requires Valid(dt)
    ensures CoerceTimestamp(FormatNaive(dt)) == Some(FormatNaive(dt) + "Z")
  {
    var n := FormatNaive(dt);
    NaiveHasNoZ(dt);
    ReplaceZNoZ(n);
    assert !EndsWith(n, " UTC") by {
      assert n[|n| - 1] != 'C';
    }
    assert !EndsWith(n, "+00:00") by {
      assert n[|n| - 6] != '+';
    }
    ParseFormatNaive(dt, 'T', true);
  }

  lemma FracText(frac: string)
    requires 1 <= |frac| <= 6 && AllDigits(frac)
    ensures ParseFrac("." + frac) == Some(DigitsValue(frac) * Pow10(6 - |frac|))
  {
    assert ("." + frac)[1..] == frac;
  }

  /** When the " UTC" form parses, its reading is the result. */
  lemma CoerceUtcReading(s: string)
    requires EndsWith(s, " UTC") && Strptime(s[..|s| - 4]).Some?
    ensures CoerceTimestamp(s) == Some(Format(Strptime(s[..|s| - 4]).value))
  {
  }

  /** The warehouse's "YYYY-MM-DD HH:MM:SS[.f] UTC" form becomes canonical ISO
      with "Z"; the fraction, read as microseconds, is dropped when zero. */
  lemma UtcSuffixForm(dt: DateTime, frac: string, s: string)
    requires Valid(dt)
    requires frac == [] || (1 <= |frac| <= 6 && AllDigits(frac))
    requires dt.micro == if frac == [] then 0 else DigitsValue(frac) * Pow10(6 - |frac|)
    requires s == DatePart(dt) + " " + ClockPart(dt) + (if frac == [] then "" else "." + frac) + " UTC"
    ensures CoerceTimestamp(s) == Some(Format(dt))
  {
    var f := if frac == [] then "" else "." + frac;
    var t := DatePart(dt) + " " + ClockPart(dt) + f;
    assert EndsWith(s, " UTC") && s[..|s| - 4] == t;
    if frac != [] {
      FracText(frac);
    }
    ParseWritten(dt, ' ', false, f);
    CoerceUtcReading(s);
  }

  /** Coercing twice is coercing once. */
  lemma CoerceIdempotent(s: string)
    ensures CoerceTimestamp(s).Some? ==> CoerceTimestamp(CoerceTimestamp(s).value) == CoerceTimestamp(s)
  {
    if CoerceTimestamp(s).Some? {
      var dt :| Valid(dt) && CoerceTimestamp(s).value == Format(dt);
      CanonicalUnchanged(dt);
    }
  }

  lemma PadExamples()
    ensures Pad(2024, 4) == "2024" && Pad(1, 2) == "01"
  {
    assert Pad(2, 1) == "2";
    assert Pad(20, 2) == "20";
    assert Pad(202, 3) == "202";
    assert Pad(0, 1) == "0";
  }

  lemma ExampleDate()
    ensures DatePart(DateTime(2024, 1, 1, 12, 0, 0, 0)) == "2024-01-01"
  {
    PadExamples();
  }

  lemma ExampleClock()
    ensures ClockPart(DateTime(2024, 1, 1, 12, 0, 0, 0)) == "12:00:00"
  {
    assert Pad(12, 2) == "12";
    assert Pad(0, 2) == "00";
  }

  lemma ExampleInput()
    ensures var dt := DateTime(2024, 1, 1, 12, 0, 0, 0);
      "2024-01-01 12:00:00.000 UTC" == DatePart(dt) + " " + ClockPart(dt) + "." + "000" + " UTC"
  {
    ExampleDate();
    ExampleClock();
  }

  lemma ExampleOutput()
    ensures Format(DateTime(2024, 1, 1, 12, 0, 0, 0)) == "2024-01-01T12:00:00Z"
  {
    var dt := DateTime(2024, 1, 1, 12, 0, 0, 0);
    ExampleDate();
    ExampleClock();
    assert FormatNaive(dt) == DatePart(dt) + "T" + ClockPart(dt) + FracPart(0);
    assert FracPart(0) == "";
  }

  lemma ZeroFraction()
    ensures DigitsValue("000") == 0
  {
    assert "000"[..2] == "00" && "00"[..1] == "0" && "0"[..0] == "";
  }

  /** The example the warehouse sends: "2024-01-01 12:00:00.000 UTC". */
  lemma ExampleUtc()
    ensures CoerceTimestamp("2024-01-01 12:00:00.000 UTC") == Some("2024-01-01T12:00:00Z")
  {
    var dt := DateTime(2024, 1, 1, 12, 0, 0, 0);
    ExampleInput();
    ExampleOutput();
    ZeroFraction();
    UtcSuffixForm(dt, "000", "2024-01-01 12:00:00.000 UTC");
  }
}
