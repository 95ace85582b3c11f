/** The sunset side of src/main.rs: `parse_sunset_time` turns the vendor's
    12-hour string into a local instant for today, the text it is given is
    what `Value::to_string` makes of the JSON field, and `logic` picks one of
    three branches from the current time and the sunset. */
module SunsetLogic {

  const U32Max: nat := 0xFFFF_FFFF

  // ---------------------------------------------------------------------
  // `str::split(&[':', ' '])`

  predicate IsSeparator(c: char) { c == ':' || c == ' ' }

  predicate NoSeparator(s: string) {
    forall i :: 0 <= i < |s| ==> !IsSeparator(s[i])
  }

  /** The pieces of `s` between separators, empty pieces included: a string
      with k separators has k + 1 pieces. */
  function Split(s: string): (r: seq<string>)
    ensures |r| >= 1
    decreases |s|
  {
    if s == [] then [[]]
    else
      var rest := Split(s[1..]);
      if IsSeparator(s[0]) then [[]] + rest
      else [[s[0]] + rest[0]] + rest[1..]
  }

  /** A string without separators is a single piece. */
  lemma {:induction false} SplitNoSeparator(a: string)
    requires NoSeparator(a)
    ensures Split(a) == [a]
    decreases |a|
  {
    if a != [] {
      SplitNoSeparator(a[1..]);
      assert [a[0]] + a[1..] == a;
    }
  }

  /** Splitting at a separator splits the pieces: Split together with
      SplitNoSeparator determines the pieces of every string. */
  lemma {:induction false} SplitAtSeparator(a: string, c: char, b: string)
    requires IsSeparator(c)
    ensures Split(a + [c] + b) == Split(a) + Split(b)
    decreases |a|
  {
    if a == [] {
      assert a + [c] + b == [c] + b;
      assert ([c] + b)[1..] == b;
    } else {
      var s := a + [c] + b;
      assert s[0] == a[0];
      assert s[1..] == a[1..] + [c] + b;
      SplitAtSeparator(a[1..], c, b);
    }
  }

  /** Four separator-free pieces joined by three separators split back into
      those four pieces. */
  lemma SplitFour(p1: string, c1: char, p2: string, c2: char, p3: string, c3: char, p4: string)
    requires NoSeparator(p1) && NoSeparator(p2) && NoSeparator(p3) && NoSeparator(p4)
    requires IsSeparator(c1) && IsSeparator(c2) && IsSeparator(c3)
    ensures Split(p1 + [c1] + p2 + [c2] + p3 + [c3] + p4) == [p1, p2, p3, p4]
  {
    var t3 := p3 + [c3] + p4;
    var t2 := p2 + [c2] + t3;
    assert Split(t3) == [p3, p4] by {
      SplitAtSeparator(p3, c3, p4);
      SplitNoSeparator(p3);
      SplitNoSeparator(p4);
    }
    assert Split(t2) == [p2, p3, p4] by {
      SplitAtSeparator(p2, c2, t3);
      SplitNoSeparator(p2);
    }
    assert Split(p1 + [c1] + t2) == [p1, p2, p3, p4] by {
      SplitAtSeparator(p1, c1, t2);
      SplitNoSeparator(p1);
    }
    JoinFour(p1, c1, p2, c2, p3, c3, p4);
  }

  lemma JoinFour(p1: string, c1: char, p2: string, c2: char, p3: string, c3: char, p4: string)
    ensures p1 + [c1] + p2 + [c2] + p3 + [c3] + p4 == p1 + [c1] + (p2 + [c2] + (p3 + [c3] + p4))
  {
  }

  // ---------------------------------------------------------------------
  // `<u32 as FromStr>::from_str`

  predicate IsDigit(c: char) { '0' <= c <= '9' }

  predicate AllDigits(s: string) {
    forall i :: 0 <= i < |s| ==> IsDigit(s[i])
  }

  function DigitValue(c: char): (d: nat)
    requires IsDigit(c)
  {
    (c as int) - ('0' as int)
  }

  function DigitChar(d: nat): (c: char)
    requires d < 10
    ensures IsDigit(c) && DigitValue(c) == d
  {
    (('0' as int) + d) as char
  }

  /** The number a string of decimal digits denotes, most significant
      first. */
  function DecimalValue(s: string): (n: nat)
    requires AllDigits(s)
    decreases |s|
  {
    if s == [] then 0
    else 10 * DecimalValue(s[..|s| - 1]) + DigitValue(s[|s| - 1])
  }

  datatype ParsedInt = IntOk(value: nat) | IntErr

  /** `s.parse::<u32>()`: an optional single leading '+' and then at least
      one ASCII digit and nothing else, denoting at most u32::MAX. Leading
      zeros are accepted; '-' is not. */
  function ParseU32(s: string): (r: ParsedInt)
    ensures r.IntOk? ==> r.value <= U32Max
  {
    var digits := if |s| > 0 && s[0] == '+' then s[1..] else s;
    if digits == [] || !AllDigits(digits) then IntErr
    else if DecimalValue(digits) > U32Max then IntErr
    else IntOk(DecimalValue(digits))
  }

  /** The decimal numeral of `n`, without leading zeros. */
  function NatToDecimal(n: nat): (s: string)
    ensures |s| >= 1 && AllDigits(s)
    decreases n
  {
    if n < 10 then [DigitChar(n)] else NatToDecimal(n / 10) + [DigitChar(n % 10)]
  }

  /** NatToDecimal and DecimalValue are inverse. */
  lemma {:induction false} DecimalRoundTrip(n: nat)
    ensures DecimalValue(NatToDecimal(n)) == n
    decreases n
  {
    if n >= 10 {
      DecimalRoundTrip(n / 10);
      var s := NatToDecimal(n);
      assert s[..|s| - 1] == NatToDecimal(n / 10);
    }
  }

  /** Every number up to u32::MAX parses back from its numeral. */
  lemma ParseU32RoundTrip(n: nat)
    requires n <= U32Max
    ensures ParseU32(NatToDecimal(n)) == IntOk(n)
  {
    DecimalRoundTrip(n);
  }

  /** A string that starts with something other than a digit or '+' is not a
      number. */
  lemma ParseU32RejectsStart(s: string)
    requires |s| > 0 && !IsDigit(s[0]) && s[0] != '+'
    ensures ParseU32(s) == IntErr
  {
  }

  /** A two-digit field such as the vendor's minutes and seconds. */
  function TwoDigits(n: nat): (s: string)
    requires n < 100
    ensures |s| == 2 && AllDigits(s)
  {
    [DigitChar(n / 10), DigitChar(n % 10)]
  }

  lemma ParseTwoDigits(n: nat)
    requires n < 100
    ensures ParseU32(TwoDigits(n)) == IntOk(n)
  {
    var s := TwoDigits(n);
    assert s[..1][..0] == [];
    assert s[..1] == [DigitChar(n / 10)];
    assert DecimalValue(s[..1]) == n / 10;
    assert DecimalValue(s) == 10 * (n / 10) + n % 10;
  }

  // ---------------------------------------------------------------------
  // `.flat_map(|x| x.parse::<u32>()).collect()`

  /** The values of the tokens that parse as u32, in order; the others are
      dropped. */
  function NumericValues(tokens: seq<string>): (r: seq<nat>)
    ensures |r| <= |tokens|
    ensures forall i :: 0 <= i < |r| ==> r[i] <= U32Max
    decreases |tokens|
  {
    if tokens == [] then []
    else
      (match ParseU32(tokens[0]) case IntOk(v) => [v] case IntErr => [])
      + NumericValues(tokens[1..])
  }

  /** NumericValues works token by token: together with the value on one
      token this says it keeps exactly the parsing tokens, in their order. */
  lemma {:induction false} NumericValuesConcat(a: seq<string>, b: seq<string>)
    ensures NumericValues(a + b) == NumericValues(a) + NumericValues(b)
    decreases |a|
  {
    if a == [] {
      assert a + b == b;
    } else {
      assert (a + b)[0] == a[0];
      assert (a + b)[1..] == a[1..] + b;
      NumericValuesConcat(a[1..], b);
    }
  }

  /** NumericValues on four tokens, token by token. */
  lemma NumericValuesFour(a: string, b: string, c: string, d: string)
    ensures NumericValues([a, b, c, d]) ==
      NumericValues([a]) + NumericValues([b]) + NumericValues([c]) + NumericValues([d])
  {
    assert [a, b, c, d] == [a] + [b] + [c] + [d];
    NumericValuesConcat([a] + [b] + [c], [d]);
    NumericValuesConcat([a] + [b], [c]);
    NumericValuesConcat([a], [b]);
  }

  lemma NumericValuesSingle(t: string)
    ensures ParseU32(t).IntOk? ==> NumericValues([t]) == [ParseU32(t).value]
    ensures ParseU32(t).IntErr? ==> NumericValues([t]) == []
  {
  }

  // ---------------------------------------------------------------------
  // chrono values, as integer seconds

  /** `NaiveTime`, as `from_hms_opt` builds it. */
  datatype NaiveTime = NaiveTime(hour: nat, minute: nat, second: nat)

  predicate InRange(t: NaiveTime) { t.hour < 24 && t.minute < 60 && t.second < 60 }

  function SecondsOfDay(t: NaiveTime): (seconds: nat) { t.hour * 3600 + t.minute * 60 + t.second }

  /** `NaiveDateTime`: a day number (days since 1970-01-01) and a time. */
  datatype NaiveDateTime = NaiveDateTime(date: int, time: NaiveTime)

  /** `DateTime<Local>`: an instant in seconds since the Unix epoch and the
      local offset from UTC in force at it. */
  datatype LocalDateTime = LocalDateTime(instant: int, offset: int)

  /** `date_naive()`: the local calendar day (Dafny's `/` floors for a
      positive divisor, as chrono does). */
  function DateNaive(dt: LocalDateTime): (day: int) { (dt.instant + dt.offset) / 86400 }

  /** `chrono::offset::LocalResult` */
  datatype LocalResult = Single(dt: LocalDateTime) | Ambiguous(earliest: LocalDateTime, latest: LocalDateTime) | None

  /** `NaiveTime::from_hms_opt`: None unless hour < 24, minute < 60 and
      second < 60. */
  datatype MaybeTime = SomeTime(time: NaiveTime) | NoTime

  function FromHmsOpt(hour: nat, minute: nat, second: nat): (r: MaybeTime)
    ensures r.SomeTime? <==> hour < 24 && minute < 60 && second < 60
    ensures r.SomeTime? ==> r.time == NaiveTime(hour, minute, second)
  {
    if hour >= 24 || minute >= 60 || second >= 60 then NoTime
    else SomeTime(NaiveTime(hour, minute, second))
  }

  // ---------------------------------------------------------------------
  // `parse_sunset_time`

  /** The `anyhow` errors of `parse_sunset_time`, and the one of the
      corrected field reading. */
  datatype SunsetError = CouldNotParse | AmbiguousSunset | NoSunset | NotAString

  /** Indexing `values` past its end, and `values[0] + after_noon`
      overflowing u32 with overflow checks on, abort the program. */
  datatype PanicReason = IndexOutOfBounds | AddOverflow

  datatype Outcome<T> = Ok(value: T) | Err(error: SunsetError) | Panic(reason: PanicReason)

  predicate EndsWith(s: string, suffix: string) {
    |suffix| <= |s| && s[|s| - |suffix|..] == suffix
  }

  /** `values[0] + after_noon` on u32: with overflow checks a sum past
      u32::MAX panics, without them it wraps. */
  function AddU32(a: nat, b: nat, checked: bool): (r: Outcome<nat>)
    requires a <= U32Max && b <= U32Max
    ensures r.Ok? ==> r.value <= U32Max && (a + b <= U32Max ==> r.value == a + b)
    ensures r.Panic? <==> checked && a + b > U32Max
    ensures !checked && a + b > U32Max ==> r == Ok(a + b - (U32Max + 1))
    ensures !r.Err?
  {
    if a + b <= U32Max then Ok(a + b)
    else if checked then Panic(AddOverflow)
    else Ok(a + b - (U32Max + 1))
  }

  /** Lines 32-41 of src/main.rs: the time of day the string denotes, with
      the operands evaluated left to right (`values[0]`, the addition, then
      `values[1]` and `values[2]`). */
  function ParseTimeOfDay(sunset: string, checked: bool): (r: Outcome<NaiveTime>)
    ensures r.Ok? ==> InRange(r.value)
    ensures |NumericValues(Split(sunset))| < 3 ==> r.Panic?
    ensures var values := NumericValues(Split(sunset));
      var afterNoon: nat := if EndsWith(sunset, "PM") then 12 else 0;
      |values| >= 1 && checked && values[0] + afterNoon > U32Max ==> r == Panic(AddOverflow)
    ensures var values := NumericValues(Split(sunset));
      var afterNoon: nat := if EndsWith(sunset, "PM") then 12 else 0;
      |values| >= 3 && !(checked && values[0] + afterNoon > U32Max) ==>
        var sum := values[0] + afterNoon;
        var hour: nat := if sum <= U32Max then sum else sum - (U32Max + 1);
        r == (if InRange(NaiveTime(hour, values[1], values[2])) then Ok(NaiveTime(hour, values[1], values[2]))
              else Err(CouldNotParse))
  {
    var values := NumericValues(Split(sunset));
    var afterNoon: nat := if EndsWith(sunset, "PM") then 12 else 0;
    if |values| == 0 then Panic(IndexOutOfBounds)
    else
      match AddU32(values[0], afterNoon, checked)
      case Panic(p) => Panic(p)
      case Err(e) => Err(e)
      case Ok(hour) =>
        if |values| < 3 then Panic(IndexOutOfBounds)
        else
          match FromHmsOpt(hour, values[1], values[2])
          case NoTime => Err(CouldNotParse)
          case SomeTime(t) => Ok(t)
  }

  /** Lines 42-47: the time of day on `now`'s local day, resolved by the
      local time zone `tz`; a failed parse comes through unchanged. */
  function Resolve(time: Outcome<NaiveTime>, now: LocalDateTime, tz: NaiveDateTime -> LocalResult)
    : (r: Outcome<LocalDateTime>)
    ensures r.Ok? <==> time.Ok? && tz(NaiveDateTime(DateNaive(now), time.value)).Single?
    ensures r.Panic? <==> time.Panic?
  {
    match time
    case Panic(p) => Panic(p)
    case Err(e) => Err(e)
    case Ok(t) =>
      match tz(NaiveDateTime(DateNaive(now), t))
      case Single(x) => Ok(x)
      case Ambiguous(_, _) => Err(AmbiguousSunset)
      case None => Err(NoSunset)
  }

  /** `parse_sunset_time(sunset, now)`. */
  function ParseSunsetTime(sunset: string, now: LocalDateTime, tz: NaiveDateTime -> LocalResult, checked: bool)
    : (r: Outcome<LocalDateTime>)
    ensures r.Ok? ==> ParseTimeOfDay(sunset, checked).Ok?
    ensures r.Panic? <==> ParseTimeOfDay(sunset, checked).Panic?
    ensures r.Err? && ParseTimeOfDay(sunset, checked).Err? ==> r.error == CouldNotParse
  {
    Resolve(ParseTimeOfDay(sunset, checked), now, tz)
  }

  /** The three answers of the time zone, and what each gives: only a
      single local instant is accepted, a repeated or skipped local time is
      an error; failures of the parse come through unchanged. */
  lemma LocalResolution(time: Outcome<NaiveTime>, now: LocalDateTime, tz: NaiveDateTime -> LocalResult)
    ensures var r := Resolve(time, now, tz);
      && (time.Ok? && tz(NaiveDateTime(DateNaive(now), time.value)).Single? ==>
            r == Ok(tz(NaiveDateTime(DateNaive(now), time.value)).dt))
      && (time.Ok? && tz(NaiveDateTime(DateNaive(now), time.value)).Ambiguous? ==> r == Err(AmbiguousSunset))
      && (time.Ok? && tz(NaiveDateTime(DateNaive(now), time.value)).None? ==> r == Err(NoSunset))
      && (time.Err? ==> r == Err(time.error))
      && (time.Panic? ==> r == Panic(time.reason))
  {
  }

  /** A zone with one fixed offset from UTC (seconds east). */
  function FixedOffset(offset: int): NaiveDateTime -> LocalResult {
    (ndt: NaiveDateTime) => Single(LocalDateTime(ndt.date * 86400 + SecondsOfDay(ndt.time) - offset, offset))
  }

  /** The instant at which the local clock of a zone with fixed `offset`
      shows `t` on day `day`. */
  function LocalInstant(day: int, t: NaiveTime, offset: int): (dt: LocalDateTime) {
    LocalDateTime(day * 86400 + SecondsOfDay(t) - offset, offset)
  }

  /** In a zone without daylight saving, a parsed time resolves to that time
      of day on the same local day as `now`. */
  lemma FixedOffsetIsToday(t: NaiveTime, now: LocalDateTime, offset: int)
    requires now.offset == offset && InRange(t)
    ensures Resolve(Ok(t), now, FixedOffset(offset)) == Ok(LocalInstant(DateNaive(now), t, offset))
    ensures DateNaive(LocalInstant(DateNaive(now), t, offset)) == DateNaive(now)
  {
    var day := DateNaive(now);
    var local := day * 86400 + SecondsOfDay(t);
    assert SecondsOfDay(t) < 86400;
    assert local / 86400 == day;
  }

  // ---------------------------------------------------------------------
  // The vendor's format and what the parse makes of it

  /** "H:MM:SS AM" or "H:MM:SS PM", hour without a leading zero. */
  function VendorTime(h: nat, m: nat, s: nat, pm: bool): (text: string)
    requires m < 100 && s < 100
  {
    NatToDecimal(h) + [':'] + TwoDigits(m) + [':'] + TwoDigits(s) + [' '] + (if pm then "PM" else "AM")
  }

  predicate ValidVendor(h: nat, m: nat, s: nat) { 1 <= h <= 12 && m < 60 && s < 60 }

  lemma DigitsHaveNoSeparator(s: string)
    requires AllDigits(s)
    ensures NoSeparator(s)
  {
  }

  /** Four separator-free tokens joined by ':', ':' and ' ' (the shape of
      "H:MM:SS PM") of which the first three are numbers and the last is
      not. */
  lemma LeadingValues(p1: string, p2: string, p3: string, p4: string, a: nat, b: nat, c: nat)
    requires NoSeparator(p1) && NoSeparator(p2) && NoSeparator(p3) && NoSeparator(p4)
    requires ParseU32(p1) == IntOk(a) && ParseU32(p2) == IntOk(b) && ParseU32(p3) == IntOk(c)
    requires ParseU32(p4) == IntErr
    ensures NumericValues(Split(p1 + [':'] + p2 + [':'] + p3 + [' '] + p4)) == [a, b, c]
  {
    SplitFour(p1, ':', p2, ':', p3, ' ', p4);
    NumericValuesFour(p1, p2, p3, p4);
  }

  /** The same shape where only the two middle tokens are numbers. */
  lemma MiddleValues(p1: string, p2: string, p3: string, p4: string, b: nat, c: nat)
    requires NoSeparator(p1) && NoSeparator(p2) && NoSeparator(p3) && NoSeparator(p4)
    requires ParseU32(p1) == IntErr && ParseU32(p4) == IntErr
    requires ParseU32(p2) == IntOk(b) && ParseU32(p3) == IntOk(c)
    ensures NumericValues(Split(p1 + [':'] + p2 + [':'] + p3 + [' '] + p4)) == [b, c]
  {
    SplitFour(p1, ':', p2, ':', p3, ' ', p4);
    NumericValuesFour(p1, p2, p3, p4);
  }

  /** The four pieces of a vendor string are the hour, the minutes, the
      seconds and the AM/PM marker; of them exactly the first three are
      numbers. */
  lemma VendorValues(h: nat, m: nat, s: nat, pm: bool)
    requires ValidVendor(h, m, s)
    ensures NumericValues(Split(VendorTime(h, m, s, pm))) == [h, m, s]
    ensures EndsWith(VendorTime(h, m, s, pm), "PM") <==> pm
  {
    var marker: string := if pm then "PM" else "AM";
    DigitsHaveNoSeparator(NatToDecimal(h));
    DigitsHaveNoSeparator(TwoDigits(m));
    DigitsHaveNoSeparator(TwoDigits(s));
    ParseU32RoundTrip(h);
    ParseTwoDigits(m);
    ParseTwoDigits(s);
    ParseU32RejectsStart(marker);
    LeadingValues(NatToDecimal(h), TwoDigits(m), TwoDigits(s), marker, h, m, s);
    var v := VendorTime(h, m, s, pm);
    assert v[|v| - 2..] == marker;
  }

  /** What the parse makes of every well-formed vendor string, as written:
      the hour is h for AM and h + 12 for PM, so "12:MM:SS AM" is read as
      noon and "12:MM:SS PM" as hour 24, which is rejected. */
  lemma VendorRoundTrip(h: nat, m: nat, s: nat, pm: bool, checked: bool)
    requires ValidVendor(h, m, s)
    ensures ParseTimeOfDay(VendorTime(h, m, s, pm), checked) ==
      if pm && h == 12 then Err(CouldNotParse)
      else Ok(NaiveTime(if pm then h + 12 else h, m, s))
  {
    VendorValues(h, m, s, pm);
  }

  /** The 24-hour clock hour a 12-hour clock reading denotes: 12 AM is
      midnight and 12 PM is noon. */
  function Hour24(h: nat, pm: bool): (hour: nat)
    requires 1 <= h <= 12
    ensures hour < 24
    ensures (hour >= 12) == pm
  {
    (h % 12) + (if pm then 12 else 0)
  }

  /** The 12-hour clock reading of a 24-hour clock hour. */
  function Hour12(hour: nat): (reading: (nat, bool))
    requires hour < 24
    ensures 1 <= reading.0 <= 12
  {
    (if hour % 12 == 0 then 12 else hour % 12, hour >= 12)
  }

  /** Hour24 is a bijection from the 12-hour readings onto 0..23. */
  lemma Hour24Bijection(h: nat, pm: bool, hour: nat)
    requires 1 <= h <= 12 && hour < 24
    ensures Hour12(Hour24(h, pm)) == (h, pm)
    ensures Hour24(Hour12(hour).0, Hour12(hour).1) == hour
  {
  }

  /** Lines 32-41 with the 12-hour conversion done right: the hour modulo
      12, plus 12 after noon. */
  function ParseTimeOfDayFixed(sunset: string): (r: Outcome<NaiveTime>)
    ensures r.Ok? ==> InRange(r.value)
  {
    var values := NumericValues(Split(sunset));
    if |values| < 3 then Err(CouldNotParse)
    else
      var hour := (values[0] % 12) + (if EndsWith(sunset, "PM") then 12 else 0);
      match FromHmsOpt(hour, values[1], values[2])
      case NoTime => Err(CouldNotParse)
      case SomeTime(t) => Ok(t)
  }

  /** With the conversion corrected, every vendor string reads as the time
      it names, and different vendor strings give different times. */
  lemma VendorRoundTripFixed(h: nat, m: nat, s: nat, pm: bool)
    requires ValidVendor(h, m, s)
    ensures ParseTimeOfDayFixed(VendorTime(h, m, s, pm)) == Ok(NaiveTime(Hour24(h, pm), m, s))
  {
    VendorValues(h, m, s, pm);
  }

  // ---------------------------------------------------------------------
  // `parse_json_to_sunset_time`: `value["results"]["sunset"].to_string()`

  /** The JSON values the sunset field can hold here: the vendor's string,
      or Null when the field is missing (indexing a `Value` by a missing key
      gives Null). */
  datatype JsonValue = JString(s: string) | JNull

  /** A character serde_json writes as an escape sequence. */
  predicate NeedsEscape(c: char) { c == '"' || c == '\\' || c < ' ' }

  function HexDigit(d: nat): (c: char)
    requires d < 16
  {
    if d < 10 then DigitChar(d) else (('a' as int) + d - 10) as char
  }

  /** serde_json's escape of one character: \" \\ \b \t \n \f \r, other
      control characters as \u00xx with lower-case hex digits. */
  function EscapeChar(c: char): (e: string)
    ensures NeedsEscape(c) ==> |e| >= 2 && e[0] == '\\'
    ensures !NeedsEscape(c) ==> e == [c]
  {
    if c == '"' then ['\\', '"']
    else if c == '\\' then ['\\', '\\']
    else if c == '\U{8}' then ['\\', 'b']
    else if c == '\t' then ['\\', 't']
    else if c == '\n' then ['\\', 'n']
    else if c == '\U{C}' then ['\\', 'f']
    else if c == '\r' then ['\\', 'r']
    else if c < ' ' then ['\\', 'u', '0', '0', HexDigit((c as int) / 16), HexDigit((c as int) % 16)]
    else [c]
  }

  function Escape(s: string): (e: string)
    decreases |s|
  {
    if s == [] then [] else EscapeChar(s[0]) + Escape(s[1..])
  }

  /** `Display for Value` (`to_string`): a string is written as a JSON
      string literal, quotes included. */
  function Display(v: JsonValue): (shown: string)
    ensures v.JString? ==> |shown| >= 2 && shown[0] == '"' && shown[|shown| - 1] == '"'
    ensures v.JNull? ==> shown == "null"
  {
    match v
    case JString(s) => ['"'] + Escape(s) + ['"']
    case JNull => "null"
  }

  /** Text without characters to escape is written as it is, between
      quotes. */
  lemma {:induction false} EscapePlain(s: string)
    requires forall i :: 0 <= i < |s| ==> !NeedsEscape(s[i])
    ensures Escape(s) == s
    decreases |s|
  {
    if s != [] {
      EscapePlain(s[1..]);
      assert [s[0]] + s[1..] == s;
    }
  }

  lemma DisplayQuotes(v: JsonValue)
    ensures v.JString? && (forall i :: 0 <= i < |v.s| ==> !NeedsEscape(v.s[i])) ==> Display(v) == ['"'] + v.s + ['"']
  {
    if v.JString? && (forall i :: 0 <= i < |v.s| ==> !NeedsEscape(v.s[i])) {
      EscapePlain(v.s);
    }
  }

  lemma VendorIsPlain(h: nat, m: nat, s: nat, pm: bool)
    requires m < 100 && s < 100
    ensures var v := VendorTime(h, m, s, pm); forall i :: 0 <= i < |v| ==> !NeedsEscape(v[i])
  {
  }

  /** A vendor time as `to_string` shows it: between JSON quotes. */
  lemma ShownVendorTime(h: nat, m: nat, s: nat, pm: bool)
    requires m < 100 && s < 100
    ensures Display(JString(VendorTime(h, m, s, pm))) ==
      (['"'] + NatToDecimal(h)) + [':'] + TwoDigits(m) + [':'] + TwoDigits(s) + [' ']
      + ((if pm then "PM" else "AM") + ['"'])
  {
    VendorIsPlain(h, m, s, pm);
    DisplayQuotes(JString(VendorTime(h, m, s, pm)));
  }

  /** The pieces of the shown vendor time: the hour carries the opening
      quote and the marker the closing one, so only minutes and seconds are
      numbers. */
  lemma ShownVendorValues(h: nat, m: nat, s: nat, pm: bool)
    requires ValidVendor(h, m, s)
    ensures NumericValues(Split(Display(JString(VendorTime(h, m, s, pm))))) == [m, s]
  {
    var first := ['"'] + NatToDecimal(h);
    var last := (if pm then "PM" else "AM") + ['"'];
    DigitsHaveNoSeparator(TwoDigits(m));
    DigitsHaveNoSeparator(TwoDigits(s));
    assert NoSeparator(first) by {
      DigitsHaveNoSeparator(NatToDecimal(h));
      assert forall i :: 1 <= i < |first| ==> first[i] == NatToDecimal(h)[i - 1];
    }
    ParseU32RejectsStart(first);
    ParseU32RejectsStart(last);
    ParseTwoDigits(m);
    ParseTwoDigits(s);
    MiddleValues(first, TwoDigits(m), TwoDigits(s), last, m, s);
    ShownVendorTime(h, m, s, pm);
  }

  /** The string `parse_sunset_time` is given is the field shown with its
      JSON quotes. For every well-formed vendor time the hour token starts
      with a quote and the marker ends with one, so only the minutes and
      seconds are numbers, "PM" is never seen, and `values[2]` is indexed
      past the end: the program aborts. */
  lemma QuotedVendorTimePanics(h: nat, m: nat, s: nat, pm: bool, checked: bool)
    requires ValidVendor(h, m, s)
    ensures !EndsWith(Display(JString(VendorTime(h, m, s, pm))), "PM")
    ensures ParseTimeOfDay(Display(JString(VendorTime(h, m, s, pm))), checked) == Panic(IndexOutOfBounds)
  {
    var shown := Display(JString(VendorTime(h, m, s, pm)));
    DisplayQuotes(JString(VendorTime(h, m, s, pm)));
    assert shown[|shown| - 2..][1] == shown[|shown| - 1] == '"';
    ShownVendorValues(h, m, s, pm);
  }

  /** A missing field shows as `null`, which has no numbers at all. */
  lemma MissingFieldPanics(checked: bool)
    ensures ParseTimeOfDay(Display(JNull), checked) == Panic(IndexOutOfBounds)
  {
    var t: string := "null";
    assert Split(t) == [t] by {
      SplitNoSeparator(t);
    }
  }

  /** The corrected field reading, `as_str()`: the text of a string field,
      an error for anything else. */
  function SunsetText(v: JsonValue): (r: Outcome<string>)
    ensures r.Ok? <==> v.JString?
    ensures v.JString? ==> r.value == v.s
    ensures !r.Panic?
  {
    match v
    case JString(s) => Ok(s)
    case JNull => Err(NotAString)
  }

  /** Read through SunsetText, the vendor's field is the vendor's string and
      the corrected parse reads the time it names. */
  lemma RawVendorTimeParses(h: nat, m: nat, s: nat, pm: bool)
    requires ValidVendor(h, m, s)
    ensures SunsetText(JString(VendorTime(h, m, s, pm))) == Ok(VendorTime(h, m, s, pm))
    ensures ParseTimeOfDayFixed(SunsetText(JString(VendorTime(h, m, s, pm))).value)
            == Ok(NaiveTime(Hour24(h, pm), m, s))
  {
    VendorRoundTripFixed(h, m, s, pm);
  }

  // ---------------------------------------------------------------------
  // The decision in `logic`

  /** `Duration::minutes(60)`, in seconds. */
  const OffsetSeconds: int := 3600

  /** The three branches of lines 84-91: switch the LEDs on, sleep long,
      sleep short. */
  datatype Action = ShowLeds | LongSleep | ShortSleep

  /** The branch `logic` takes for the current time and the sunset
      (`DateTime` compares instants). */
  function Decide(now: LocalDateTime, sunset: LocalDateTime): (a: Action)
    ensures a != ShowLeds
    ensures a == LongSleep <==> now.instant > sunset.instant + OffsetSeconds
    ensures a == ShortSleep <==> now.instant <= sunset.instant + OffsetSeconds
  {
    if now.instant < sunset.instant - OffsetSeconds && now.instant > sunset.instant + OffsetSeconds then ShowLeds
    else if now.instant > sunset.instant + OffsetSeconds then LongSleep
    else ShortSleep
  }

  /** The LED condition asks for a time before the window and after it at
      once; for no offset of at least zero is there one. */
  lemma LedConditionUnsatisfiable(now: int, sunset: int, offset: int)
    requires offset >= 0
    ensures !(now < sunset - offset && now > sunset + offset)
  {
  }

  /** Lines 82-91: the decision on the field the JSON held, the current time
      and the time zone. */
  function Logic(field: JsonValue, now: LocalDateTime, tz: NaiveDateTime -> LocalResult, checked: bool)
    : (r: Outcome<Action>)
    ensures r.Ok? ==> r.value != ShowLeds
  {
    match ParseSunsetTime(Display(field), now, tz, checked)
    case Panic(p) => Panic(p)
    case Err(e) => Err(e)
    case Ok(sunset) => Ok(Decide(now, sunset))
  }

  /** On every answer the vendor can give, `logic` as written aborts before
      it reaches the decision. */
  lemma LogicPanicsOnVendorField(h: nat, m: nat, s: nat, pm: bool, now: LocalDateTime,
                                 tz: NaiveDateTime -> LocalResult, checked: bool)
    requires ValidVendor(h, m, s)
    ensures Logic(JString(VendorTime(h, m, s, pm)), now, tz, checked) == Panic(IndexOutOfBounds)
  {
    QuotedVendorTimePanics(h, m, s, pm, checked);
  }

  /** The decision with both corrections: the field's text read with
      `as_str()` and the 12-hour clock converted properly. */
  function LogicFixed(field: JsonValue, now: LocalDateTime, tz: NaiveDateTime -> LocalResult)
    : (r: Outcome<Action>)
    ensures r.Ok? ==> r.value != ShowLeds
    ensures !r.Panic?
  {
    match SunsetText(field)
    case Panic(p) => Panic(p)
    case Err(e) => Err(e)
    case Ok(text) =>
      match Resolve(ParseTimeOfDayFixed(text), now, tz)
      case Panic(p) => Panic(p)
      case Err(e) => Err(e)
      case Ok(sunset) => Ok(Decide(now, sunset))
  }

  /** With the corrections, in a zone without daylight saving, every vendor
      answer leads to the decision against the sunset it names, today. */
  lemma LogicFixedOnVendorField(h: nat, m: nat, s: nat, pm: bool, now: LocalDateTime)
    requires ValidVendor(h, m, s)
    ensures var sunset := LocalInstant(DateNaive(now), NaiveTime(Hour24(h, pm), m, s), now.offset);
      LogicFixed(JString(VendorTime(h, m, s, pm)), now, FixedOffset(now.offset)) == Ok(Decide(now, sunset))
  {
    RawVendorTimeParses(h, m, s, pm);
    FixedOffsetIsToday(NaiveTime(Hour24(h, pm), m, s), now, now.offset);
  }
}
