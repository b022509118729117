/** Timestamps as text: what the printer writes, the parser reads back. */
module Timestamp {
  import opened Common
  import opened TrimWhitespace
  import Calendar

  /** `cstr_datetime_t`: a field that is -1 is absent. */
  datatype DateTime = DateTime(year: int, month: int, day: int, hour: int, minute: int, second: int,
                               millisecond: int, timezone: int)

  // ----- numbers -----

  predicate IsDigit(c: char) { '0' <= c <= '9' }

  predicate AllDigits(s: string) { forall i :: 0 <= i < |s| ==> IsDigit(s[i]) }

  function Digit(d: nat): char
    requires d < 10
  {
    ('0' as int + d) as char
  }

  /** `%0*d`: at least `width` characters, the sign first. */
  function Padded(n: int, width: nat): string
    decreases n < 0, (if n < 0 then 0 else n) + width
  {
    if n < 0 then "-" + Padded(-n, if width > 0 then width - 1 else 0)
    else if n < 10 && width <= 1 then [Digit(n)]
    else Padded(n / 10, if width > 0 then width - 1 else 0) + [Digit(n % 10)]
  }

  /** `atoi` of a string of digits. */
  function Value(s: string): int {
    if s == "" then 0 else 10 * Value(s[..|s| - 1]) + (s[|s| - 1] as int - '0' as int)
  }

  function Power10(k: nat): nat { if k == 0 then 1 else 10 * Power10(k - 1) }

  lemma {:induction false} PaddedIs(n: nat, width: nat)
    requires width > 0 && n < Power10(width)
    ensures |Padded(n, width)| == width && AllDigits(Padded(n, width)) && Value(Padded(n, width)) == n
  {
    if width > 1 {
      PaddedIs(n / 10, width - 1);
      var most := Padded(n / 10, width - 1);
      assert (most + [Digit(n % 10)])[..width - 1] == most;
    } else {
      assert [Digit(n)][..0] == "";
      assert Power10(0) == 1;
    }
  }

  // ----- printing -----

  function PrintDate(dt: DateTime): string {
    if dt.year == -1 then "" else Padded(dt.year, 4) + "-" + Padded(dt.month, 2) + "-" + Padded(dt.day, 2)
  }

  function PrintClock(dt: DateTime): string {
    if dt.hour == -1 then "" else Padded(dt.hour, 2) + ":" + Padded(dt.minute, 2) + ":" + Padded(dt.second, 2)
  }

  function PrintMsec(ms: int): string {
    if ms == -1 then "" else "." + Padded(ms, 3)
  }

  function PrintZone(tz: int): string {
    if tz == -1 then ""
    else if tz < 0 then "W" + Padded(-tz / 100, 2) + ":" + Padded(-tz % 100, 2)
    else "+" + Padded(tz / 100, 2) + ":" + Padded(tz % 100, 2)
  }

  /** The text before the zone. */
  function PrintBody(dt: DateTime): string {
    var d := PrintDate(dt);
    (if dt.hour == -1 then d else d + (if d == "" then "" else " ") + PrintClock(dt)) + PrintMsec(dt.millisecond)
  }

  function Print(dt: DateTime): string { PrintBody(dt) + PrintZone(dt.timezone) }

  // ----- parsing -----

  function LastIndexOf(s: string, c: char): (k: int)
    ensures -1 <= k < |s| && (k >= 0 ==> s[k] == c) && forall j :: k < j < |s| ==> s[j] != c
  {
    if s == "" then -1 else if s[|s| - 1] == c then |s| - 1 else LastIndexOf(s[..|s| - 1], c)
  }

  lemma IndexIs(s: string, c: char, k: nat)
    requires k <= |s| && (k < |s| ==> s[k] == c) && forall j :: 0 <= j < k ==> s[j] != c
    ensures IndexOf(s, c) == k
  {
  }

  lemma LastIndexIs(s: string, c: char, k: int)
    requires -1 <= k < |s| && (k >= 0 ==> s[k] == c) && forall j :: k < j < |s| ==> s[j] != c
    ensures LastIndexOf(s, c) == k
  {
  }

  /** Where the time zone starts, or the length of the text. */
  function ZoneAt(s: string): (k: nat)
    ensures k <= |s|
  {
    if IndexOf(s, '+') < |s| then IndexOf(s, '+')
    else if IndexOf(s, 'E') < |s| then IndexOf(s, 'E')
    else if IndexOf(s, 'W') < |s| then IndexOf(s, 'W')
    else
      var k := LastIndexOf(s, '-');
      if k >= 0 && k + 3 < |s| && (s[k + 3] == ':' || s[k + 3] == '.') then k else |s|
  }

  /** The value of a time zone; -1 stands for an error. */
  function ParseZone(tz: string): int {
    if tz == "" then -1
    else
      var sign := if tz[0] == '+' || tz[0] == 'E' then 1 else if tz[0] == '-' || tz[0] == 'W' then -1 else 0;
      if sign == 0 || |tz| != 6 || !AllDigits(tz[1..3]) || (tz[3] != ':' && tz[3] != '.')
         || !AllDigits(tz[4..6]) then -1
      else if Value(tz[1..3]) > 23 || Value(tz[4..6]) > 59 then -1
      else (Value(tz[1..3]) * 100 + Value(tz[4..6])) * sign
  }

  function LeftTrimmed(s: string): string { if s != "" && IsSpace(s[0]) then LeftTrimmed(s[1..]) else s }

  function RightTrimmed(s: string): string {
    if s != "" && IsSpace(s[|s| - 1]) then RightTrimmed(s[..|s| - 1]) else s
  }

  /** The text between the first and the last quote, or all of it; a lone quote is an error. */
  function Unquoted(s: string): Option<string> {
    var a, b := IndexOf(s, '\''), LastIndexOf(s, '\'');
    if b < 0 then Some(s) else if a == b then None else Some(s[a + 1..b])
  }

  datatype Fields = Fields(year: string, mon: string, day: string, hour: string, min: string, sec: string, msec: string)

  function DateFields(s: string): Option<Fields>
    requires |s| == 10
  {
    if IndexOf(s, '-') == 4 && LastIndexOf(s, '-') == 7 
    then Some(Fields(s[..4], s[5..7], s[8..10], "00", "00", "00", "000"))
    else None
  }

  function ClockFields(d: Fields, hms: string): Option<Fields>
    requires |hms| == 8 || |hms| == 12
  {
    if !(IndexOf(hms, ':') == 2 && LastIndexOf(hms, ':') == 5) then None
    else
      var f := d.(hour := hms[..2], min := hms[3..5], sec := hms[6..8]);
      if |hms| == 8 then Some(f)
      else if IndexOf(hms[5..], '.') != 3 then None
      else Some(f.(msec := hms[9..12]))
  }

  /** The fields as text, by the length of the text. */
  function Split(s: string): Option<Fields> {
    if |s| == 10 then DateFields(s)
    else if |s| != 19 && |s| != 23 then None
    else if IndexOf(s, ' ') != 10 then None
    else match DateFields(s[..10])
      case None => None
      case Some(d) => ClockFields(d, s[11..])
  }

  predicate TimeIsValid(year: int, mon: int, day: int, hour: int, min: int, sec: int) {
    if year < 1900 || year > 9999 || mon <= 0 || mon > 12 || day <= 0 || day > 31 || hour < 0 || hour > 24
       || min < 0 || min > 59 || sec < 0 || sec > 60 then false
    else if mon in {1, 3, 5, 7, 8, 10, 12} then true
    else if mon in {4, 6, 9, 11} then day < 31
    else if day > 29 then false else if day < 29 then true else Calendar.IsLeap(year)
  }

  /** The nested tests amount to: the day is one of its month. */
  lemma ValidDayOfMonth(year: int, mon: int, day: int, hour: int, min: int, sec: int)
    ensures TimeIsValid(year, mon, day, hour, min, sec) <==>
              && 1900 <= year <= 9999 && 1 <= mon <= 12
              && 1 <= day <= Calendar.MonthLengths(Calendar.IsLeap(year))[mon - 1]
              && 0 <= hour <= 24 && 0 <= min <= 59 && 0 <= sec <= 60
  {
  }

  /** The seconds since the epoch that `mktime` finds for a local date and time; -1 if it fails. */
  datatype Clock = Clock(mktime: (int, int, int, int, int, int) -> int)

  datatype Stamp = Stamp(dt: DateTime, value: int)

  const UB8 := 0x1_0000_0000_0000_0000

  function Evaluate(clock: Clock, f: Fields, hms: bool, ms: bool, zone: int): Option<Stamp> {
    if !(AllDigits(f.year) && AllDigits(f.mon) && AllDigits(f.day) && AllDigits(f.hour) && AllDigits(f.min)
         && AllDigits(f.sec) && AllDigits(f.msec)) then None
    else if !TimeIsValid(Value(f.year), Value(f.mon), Value(f.day), Value(f.hour), Value(f.min), Value(f.sec)) then None
    else
      var tsec := clock.mktime(Value(f.year), Value(f.mon), Value(f.day), Value(f.hour), Value(f.min), Value(f.sec));
      if tsec == -1 then None
      else
        var dt := DateTime(Value(f.year), Value(f.mon), Value(f.day),
                           if hms then Value(f.hour) else -1, if hms then Value(f.min) else 0,
                           if hms then Value(f.sec) else 0,
                           if ms then Value(f.msec) else -1, zone);
        Some(Stamp(dt, (tsec * 1000 + Value(f.msec)) % UB8))
  }

  function ParseBody(clock: Clock, body: string, zone: int): Option<Stamp> {
    match Unquoted(RightTrimmed(LeftTrimmed(body)))
    case None => None
    case Some(s) =>
      match Split(s)
      case None => None
      case Some(f) => Evaluate(clock, f, |s| != 10, |s| == 23, zone)
  }

  function Parse(clock: Clock, s: string): Option<Stamp> {
    var k := ZoneAt(s);
    var zone := if k < |s| then ParseZone(s[k..]) else -1;
    if k < |s| && zone == -1 then None else ParseBody(clock, s[..k], zone)
  }

  // ----- reading back what was printed -----

  predicate ValidZone(tz: int) {
    tz == -1 || (tz >= 0 && tz / 100 <= 23 && tz % 100 <= 59) || (tz < -1 && -tz / 100 <= 23 && -tz % 100 <= 59)
  }

  /** A valid date, date and time, or date and time with milliseconds. */
  predicate Printable(dt: DateTime) {
    && ValidZone(dt.timezone)
    && if dt.hour == -1 then
         dt.minute == 0 && dt.second == 0 && dt.millisecond == -1 && TimeIsValid(dt.year, dt.month, dt.day, 0, 0, 0)
       else
         -1 <= dt.millisecond <= 999 && TimeIsValid(dt.year, dt.month, dt.day, dt.hour, dt.minute, dt.second)
  }

  function Seconds(clock: Clock, dt: DateTime): int {
    clock.mktime(dt.year, dt.month, dt.day, if dt.hour == -1 then 0 else dt.hour, dt.minute, dt.second)
  }

  function Msec(dt: DateTime): int { if dt.millisecond == -1 then 0 else dt.millisecond }

  lemma Widths()
    ensures Power10(2) == 100 && Power10(3) == 1000 && Power10(4) == 10000
  {
    assert Power10(1) == 10;
  }

  /** The characters of a body. */
  predicate Plain(s: string) {
    forall i :: 0 <= i < |s| ==> IsDigit(s[i]) || s[i] in "-: ."
  }

  lemma DateIs(dt: DateTime)
    requires Printable(dt)
    ensures var d := PrintDate(dt);
            && |d| == 10 && Plain(d) && IsDigit(d[0]) && IsDigit(d[9]) && ' ' !in d
            && DateFields(d) == Some(Fields(Padded(dt.year, 4), Padded(dt.month, 2), Padded(dt.day, 2),
                                            "00", "00", "00", "000"))
  {
    hide Padded;
    Widths();
    PaddedIs(dt.year, 4);
    PaddedIs(dt.month, 2);
    PaddedIs(dt.day, 2);
    var y, m, n := Padded(dt.year, 4), Padded(dt.month, 2), Padded(dt.day, 2);
    var d := PrintDate(dt);
    assert d == y + "-" + m + "-" + n;
    assert d[..4] == y && d[5..7] == m && d[8..10] == n;
    IndexIs(d, '-', 4);
    LastIndexIs(d, '-', 7);
  }

  /** The clock part of the text, with or without milliseconds. */
  function ClockText(dt: DateTime): string { PrintClock(dt) + PrintMsec(dt.millisecond) }

  lemma ColonsAt(c: string, h: string, m: string, s: string, ms: string)
    requires |h| == |m| == |s| == 2 && AllDigits(h) && AllDigits(m) && AllDigits(s) && ':' !in ms
    requires c == h + ":" + m + ":" + s + ms
    ensures IndexOf(c, ':') == 2 && LastIndexOf(c, ':') == 5
  {
    IndexIs(c, ':', 2);
    LastIndexIs(c, ':', 5);
  }

  lemma DotAt(c: string, s: string, ms: string)
    requires |s| == 2 && AllDigits(s) && c == ":" + s + "." + ms
    ensures IndexOf(c, '.') == 3
  {
    IndexIs(c, '.', 3);
  }

  /** Three two-digit numbers, and milliseconds or nothing. */
  predicate ClockParts(c: string, h: string, m: string, s: string, ms: string) {
    && |h| == |m| == |s| == 2 && AllDigits(h) && AllDigits(m) && AllDigits(s)
    && (ms == "" || (|ms| == 4 && ms[0] == '.' && AllDigits(ms[1..])))
    && c == h + ":" + m + ":" + s + ms
  }

  lemma PartsAreRead(c: string, h: string, m: string, s: string, ms: string, d: Fields)
    requires ClockParts(c, h, m, s, ms)
    ensures ClockFields(d, c) == Some(d.(hour := h, min := m, sec := s, msec := if ms == "" then d.msec else ms[1..]))
  {
    hide IndexOf, LastIndexOf;
    assert ':' !in ms by {
      if ms != "" { assert forall i :: 0 < i < 4 ==> IsDigit(ms[i]) && ms[1..][i - 1] == ms[i]; }
    }
    ColonsAt(c, h, m, s, ms);
    assert c[..2] == h && c[3..5] == m && c[6..8] == s;
    if ms != "" {
      assert c[5..] == ":" + s + "." + ms[1..];
      DotAt(c[5..], s, ms[1..]);
      assert c[9..12] == ms[1..];
    }
  }

  lemma PartsArePlain(c: string, h: string, m: string, s: string, ms: string)
    requires ClockParts(c, h, m, s, ms)
    ensures Plain(c) && IsDigit(c[0]) && IsDigit(c[|c| - 1]) && '-' !in c
  {
    if ms != "" { assert forall i :: 0 < i < 4 ==> ms[i] == ms[1..][i - 1]; }
    forall i | 0 <= i < |c| ensures IsDigit(c[i]) || c[i] in ":." {
      if i >= 8 { assert c[i] == ms[i - 8]; }
    }
  }

  lemma ClockIs(dt: DateTime, d: Fields)
    requires Printable(dt) && dt.hour != -1 && d.msec == "000"
    ensures var c := ClockText(dt);
            && |c| == (if dt.millisecond == -1 then 8 else 12) && Plain(c) && IsDigit(c[0]) && IsDigit(c[|c| - 1])
            && '-' !in c
            && ClockFields(d, c) == Some(d.(hour := Padded(dt.hour, 2), min := Padded(dt.minute, 2),
                                            sec := Padded(dt.second, 2),
                                            msec := if dt.millisecond == -1 then "000" else Padded(dt.millisecond, 3)))
  {
    hide Padded, IndexOf, LastIndexOf, ClockFields, Plain, IsDigit;
    Widths();
    PaddedIs(dt.hour, 2);
    PaddedIs(dt.minute, 2);
    PaddedIs(dt.second, 2);
    var h, m, s, ms := Padded(dt.hour, 2), Padded(dt.minute, 2), Padded(dt.second, 2), PrintMsec(dt.millisecond);
    if dt.millisecond != -1 {
      PaddedIs(dt.millisecond, 3);
      assert ms[1..] == Padded(dt.millisecond, 3);
    }
    PartsAreRead(ClockText(dt), h, m, s, ms, d);
    PartsArePlain(ClockText(dt), h, m, s, ms);
  }

  function PrintedFields(dt: DateTime): Fields {
    var clock := dt.hour != -1;
    Fields(Padded(dt.year, 4), Padded(dt.month, 2), Padded(dt.day, 2),
           if clock then Padded(dt.hour, 2) else "00", if clock then Padded(dt.minute, 2) else "00",
           if clock then Padded(dt.second, 2) else "00",
           if dt.millisecond == -1 then "000" else Padded(dt.millisecond, 3))
  }

  lemma BodySplits(dt: DateTime)
    requires Printable(dt)
    ensures var b := PrintBody(dt);
            && |b| == (if dt.hour == -1 then 10 else if dt.millisecond == -1 then 19 else 23)
            && Plain(b) && IsDigit(b[0]) && IsDigit(b[|b| - 1]) && Split(b) == Some(PrintedFields(dt))
  {
    hide Padded, PrintDate, DateFields, ClockFields, PrintClock, PrintMsec;
    DateIs(dt);
    var b, d := PrintBody(dt), PrintDate(dt);
    if dt.hour == -1 {
      NoMsec();
      assert b == d;
    } else {
      var f := Fields(Padded(dt.year, 4), Padded(dt.month, 2), Padded(dt.day, 2), "00", "00", "00", "000");
      ClockIs(dt, f);
      assert b == d + " " + ClockText(dt);
      assert b[..10] == d && b[11..] == ClockText(dt);
      IndexIs(b, ' ', 10);
    }
  }

  lemma NoMsec()
    ensures PrintMsec(-1) == ""
  {
  }

  /** A character a body does not have. */
  lemma Lacks(b: string, c: char)
    requires Plain(b) && c in "+EW'"
    ensures c !in b && IndexOf(b, c) == |b| && LastIndexOf(b, c) == -1
  {
    IndexIs(b, c, |b|);
    LastIndexIs(b, c, -1);
  }

  /** Nothing is trimmed from a body, and it has no quotes. */
  lemma BodyStays(b: string)
    requires b != "" && Plain(b) && IsDigit(b[0]) && IsDigit(b[|b| - 1])
    ensures Unquoted(RightTrimmed(LeftTrimmed(b))) == Some(b)
  {
    hide Plain, IndexOf, LastIndexOf;
    Lacks(b, '\'');
  }

  lemma Constants()
    ensures AllDigits("00") && AllDigits("000") && Value("00") == 0 && Value("000") == 0
  {
    assert "00"[..1] == "0" && "0"[..0] == "" && "000"[..2] == "00";
  }

  lemma PrintedEvaluate(clock: Clock, dt: DateTime)
    requires Printable(dt) && Seconds(clock, dt) != -1
    ensures Evaluate(clock, PrintedFields(dt), dt.hour != -1, dt.millisecond != -1, dt.timezone)
         == Some(Stamp(dt, (Seconds(clock, dt) * 1000 + Msec(dt)) % UB8))
  {
    hide Padded, Value;
    Widths();
    Constants();
    PaddedIs(dt.year, 4);
    PaddedIs(dt.month, 2);
    PaddedIs(dt.day, 2);
    if dt.hour != -1 {
      PaddedIs(dt.hour, 2);
      PaddedIs(dt.minute, 2);
      PaddedIs(dt.second, 2);
    }
    if dt.millisecond != -1 { PaddedIs(dt.millisecond, 3); }
  }

  lemma ZoneIs(tz: int)
    requires ValidZone(tz) && tz != -1
    ensures var z := PrintZone(tz); |z| == 6 && (z[0] == '+' || z[0] == 'W') && ParseZone(z) == tz
    ensures var z := PrintZone(tz); forall i :: 0 < i < 6 ==> z[i] != '+' && z[i] != 'E'
  {
    hide Padded, Value;
    Widths();
    var t := if tz < 0 then -tz else tz;
    var h, m := Padded(t / 100, 2), Padded(t % 100, 2);
    PaddedIs(t / 100, 2);
    PaddedIs(t % 100, 2);
    var z := PrintZone(tz);
    assert z == (if tz < 0 then "W" else "+") + h + ":" + m;
    assert z[1..3] == h && z[4..6] == m;
    assert t / 100 * 100 + t % 100 == t;
  }

  /** The zone of a printed text is found where it starts, and none where there is none. */
  lemma ZoneFound(b: string, z: string)
    requires Plain(b) && |b| >= 10
    requires z == "" ==> LastIndexOf(b, '-') + 3 >= |b| || b[LastIndexOf(b, '-') + 3] == ' '
    requires z != "" ==>
               && |z| == 6 && (z[0] == '+' || z[0] == 'W')
               && forall i :: 0 < i < 6 ==> z[i] != '+' && z[i] != 'E'
    ensures ZoneAt(b + z) == |b|
  {
    hide Plain, IndexOf, LastIndexOf, IsDigit;
    var s := b + z;
    Lacks(b, '+');
    Lacks(b, 'E');
    Lacks(b, 'W');
    if z == "" {
      assert s == b;
    } else if z[0] == '+' {
      IndexIs(s, '+', |b|);
    } else {
      IndexIs(s, '+', |s|);
      IndexIs(s, 'E', |s|);
      IndexIs(s, 'W', |b|);
    }
  }

  lemma LastDash(dt: DateTime)
    requires Printable(dt)
    ensures var b := PrintBody(dt); LastIndexOf(b, '-') == 7 && |b| >= 10 && (|b| > 10 ==> b[10] == ' ')
  {
    hide Padded, PrintDate, ClockFields, PrintClock, PrintMsec;
    DateIs(dt);
    var b, d := PrintBody(dt), PrintDate(dt);
    if dt.hour == -1 {
      NoMsec();
      assert b == d;
    } else {
      ClockIs(dt, PrintedFields(dt).(msec := "000"));
      assert b == d + " " + ClockText(dt);
      assert LastIndexOf(d, '-') == 7;
      LastIndexIs(b, '-', 7);
    }
  }

  /** Parsing a printed timestamp gives back its fields, and the milliseconds since the epoch. */
  lemma ParsePrint(clock: Clock, dt: DateTime)
    requires Printable(dt) && Seconds(clock, dt) != -1
    ensures Parse(clock, Print(dt)) == Some(Stamp(dt, (Seconds(clock, dt) * 1000 + Msec(dt)) % UB8))
    ensures |Print(dt)| < 30
  {
    hide PrintBody, PrintZone, Split, Evaluate, PrintedFields, Plain, ZoneAt, ParseZone, Seconds, LeftTrimmed,
         RightTrimmed, Unquoted;
    var b, z := PrintBody(dt), PrintZone(dt.timezone);
    BodySplits(dt);
    BodyStays(b);
    LastDash(dt);
    PrintedEvaluate(clock, dt);
    if dt.timezone == -1 { NoZone(); } else { ZoneIs(dt.timezone); }
    ZoneFound(b, z);
    assert (b + z)[..|b|] == b && (b + z)[|b|..] == z;
  }

  lemma NoZone()
    ensures PrintZone(-1) == ""
  {
  }

  // ----- only valid timestamps are read -----

  lemma {:induction false} ValueBound(s: string)
    requires AllDigits(s)
    ensures 0 <= Value(s) < Power10(|s|)
  {
    if s != "" { ValueBound(s[..|s| - 1]); }
  }

  lemma ParsedZone(tz: string)
    ensures ValidZone(ParseZone(tz))
  {
    hide Value;
    if ParseZone(tz) != -1 {
      ValueBound(tz[1..3]);
      ValueBound(tz[4..6]);
      var h, m := Value(tz[1..3]), Value(tz[4..6]);
      Widths();
      assert (h * 100 + m) / 100 == h && (h * 100 + m) % 100 == m;
    }
  }

  lemma SplitShape(s: string)
    requires Split(s).Some?
    ensures |Split(s).value.msec| == 3 && (|s| == 10 || |s| == 19 || |s| == 23)
    ensures |s| == 10 ==> Split(s).value.hour == Split(s).value.min == Split(s).value.sec == "00"
  {
  }

  /** Whatever text is read, the result is a valid date, date and time, or date and time with milliseconds. */
  lemma ParsedIsPrintable(clock: Clock, s: string)
    requires Parse(clock, s).Some?
    ensures Printable(Parse(clock, s).value.dt) && Seconds(clock, Parse(clock, s).value.dt) != -1
  {
    hide Split, Value, ParseZone, LeftTrimmed, RightTrimmed, Unquoted;
    var k := ZoneAt(s);
    if k < |s| { ParsedZone(s[k..]); }
    var t := Unquoted(RightTrimmed(LeftTrimmed(s[..k]))).value;
    SplitShape(t);
    ValueBound(Split(t).value.msec);
    Widths();
    Constants();
  }

  /** A date and time survives printing and parsing exactly if it is valid in one of the three shapes. */
  lemma SurvivesIffPrintable(clock: Clock, dt: DateTime)
    requires Seconds(clock, dt) != -1
    ensures Printable(dt) <==> Parse(clock, Print(dt)).Some? && Parse(clock, Print(dt)).value.dt == dt
  {
    hide Parse, Print;
    if Printable(dt) { ParsePrint(clock, dt); }
    if Parse(clock, Print(dt)).Some? { ParsedIsPrintable(clock, Print(dt)); }
  }

  /** Whatever spelling was read, printing the result and reading it again gives the same instant. */
  lemma ReprintedTextIsEquivalent(clock: Clock, s: string)
    requires Parse(clock, s).Some?
    ensures Parse(clock, Print(Parse(clock, s).value.dt)) == Parse(clock, s)
  {
    hide Print, Parse, Printable, Seconds;
    ParsedIsPrintable(clock, s);
    ParsePrint(clock, Parse(clock, s).value.dt);
    ParsedValue(clock, s);
  }

  lemma ParsedValue(clock: Clock, s: string)
    requires Parse(clock, s).Some?
    ensures var r := Parse(clock, s).value; r.value == (Seconds(clock, r.dt) * 1000 + Msec(r.dt)) % UB8
  {
    hide Split, Value, ParseZone, ZoneAt, LeftTrimmed, RightTrimmed, Unquoted;
    var t := Unquoted(RightTrimmed(LeftTrimmed(s[..ZoneAt(s)]))).value;
    SplitShape(t);
    ValueBound(Split(t).value.msec);
    Widths();
    Constants();
    SplitMsec(t);
  }

  lemma SplitMsec(s: string)
    requires Split(s).Some?
    ensures |s| != 23 ==> Split(s).value.msec == "000"
  {
  }

  // ----- which time zones are accepted -----

  /** A sign, two digits, a separator, two digits: at most 23 hours and 59 minutes. */
  predicate ZoneText(z: string) {
    && |z| == 6 && z[0] in "+E-W" && AllDigits(z[1..3]) && z[3] in ":." && AllDigits(z[4..6])
    && Value(z[1..3]) <= 23 && Value(z[4..6]) <= 59
  }

  /** The one zone whose value is the -1 that stands for an error. */
  predicate OneMinuteWest(z: string)
    requires ZoneText(z)
  {
    z[0] in "-W" && Value(z[1..3]) == 0 && Value(z[4..6]) == 1
  }

  lemma ZoneAcceptedIff(z: string)
    ensures ParseZone(z) != -1 <==> ZoneText(z) && !OneMinuteWest(z)
  {
    hide Value;
    if |z| == 6 && AllDigits(z[1..3]) && AllDigits(z[4..6]) {
      ValueBound(z[1..3]);
      ValueBound(z[4..6]);
    }
  }

  /** A text is accepted exactly if its body is and its zone, if it has one, is well-formed and not one minute west. */
  lemma AcceptedIff(clock: Clock, s: string)
    ensures var k := ZoneAt(s);
            Parse(clock, s).Some? <==>
              && (k < |s| ==> ZoneText(s[k..]) && !OneMinuteWest(s[k..]))
              && ParseBody(clock, s[..k], if k < |s| then ParseZone(s[k..]) else -1).Some?
  {
    hide ParseZone, ZoneAt, ParseBody, ZoneText, OneMinuteWest;
    var k := ZoneAt(s);
    if k < |s| { ZoneAcceptedIff(s[k..]); }
  }

  /** Behind every valid timestamp the zone W00:01 is rejected, and its neighbours are not. */
  lemma OneMinuteWestIsRejected(clock: Clock, dt: DateTime)
    requires Printable(dt) && Seconds(clock, dt) != -1
    ensures Parse(clock, PrintBody(dt) + "W00:01") == None
    ensures Parse(clock, PrintBody(dt) + "W00:02").Some? && Parse(clock, PrintBody(dt) + "+00:01").Some?
  {
    hide Value, ParseZone, ZoneAt, ParseBody, Parse, PrintBody, LeftTrimmed, RightTrimmed, Unquoted, Split, Evaluate,
         PrintedFields;
    hide Printable, Seconds;
    var b := PrintBody(dt);
    ShortValues();
    BodyParses(clock, dt, -2);
    BodyParses(clock, dt, 1);
    ZoneBehind(dt, "W00:01");
    ZoneBehind(dt, "W00:02");
    ZoneBehind(dt, "+00:01");
    AcceptedIff(clock, b + "W00:01");
    AcceptedIff(clock, b + "W00:02");
    AcceptedIff(clock, b + "+00:01");
    ZoneValues();
  }

  lemma ShortValues()
    ensures Value("00") == 0 && Value("01") == 1 && Value("02") == 2
  {
    assert "00"[..1] == "0" && "01"[..1] == "0" && "02"[..1] == "0" && "0"[..0] == "";
  }

  lemma ZoneValues()
    ensures ParseZone("W00:02") == -2 && ParseZone("+00:01") == 1
    ensures ZoneText("W00:01") && OneMinuteWest("W00:01")
    ensures ZoneText("W00:02") && !OneMinuteWest("W00:02") && ZoneText("+00:01") && !OneMinuteWest("+00:01")
  {
    hide Value;
    ShortValues();
    assert "W00:01"[1..3] == "00" && "W00:01"[4..6] == "01";
    assert "W00:02"[1..3] == "00" && "W00:02"[4..6] == "02";
    assert "+00:01"[1..3] == "00" && "+00:01"[4..6] == "01";
  }

  lemma ZoneBehind(dt: DateTime, z: string)
    requires Printable(dt) && |z| == 6 && (z[0] == '+' || z[0] == 'W')
    requires forall i :: 0 < i < 6 ==> z[i] != '+' && z[i] != 'E'
    ensures var b := PrintBody(dt); ZoneAt(b + z) == |b| && (b + z)[..|b|] == b && (b + z)[|b|..] == z && |b| < |b + z|
  {
    hide PrintBody, ZoneAt, Plain, Split, PrintedFields;
    BodySplits(dt);
    ZoneFound(PrintBody(dt), z);
  }

  lemma BodyParses(clock: Clock, dt: DateTime, zone: int)
    requires Printable(dt) && Seconds(clock, dt) != -1
    ensures ParseBody(clock, PrintBody(dt), zone).Some?
  {
    hide PrintBody, Split, PrintedFields, LeftTrimmed, RightTrimmed, Unquoted, Plain;
    BodySplits(dt);
    BodyStays(PrintBody(dt));
    PrintedEvaluate(clock, dt);
  }
}
