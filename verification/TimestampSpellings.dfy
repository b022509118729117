/** Every spelling of a timestamp that the parser accepts, and what it means, in terms of the characters. */
module TimestampSpellings {
  import opened Common
  import opened TrimWhitespace
  import opened Timestamp

  // ----- the printed text, digit by digit -----

  /** The value of a digit. */
  function D(c: char): int { c as int - 48 }

  predicate Digits(s: string) { forall i :: 0 <= i < |s| ==> '0' <= s[i] <= '9' }

  predicate TwoDigits(s: string, i: nat, n: int) {
    i + 2 <= |s| && Digits(s[i..i + 2]) && n == 10 * D(s[i]) + D(s[i + 1])
  }

  /** The text of a date, a date and time, or a date and time with milliseconds. */
  ghost predicate Spelled(dt: DateTime, s: string) {
    && |s| == (if dt.hour == -1 then 10 else if dt.millisecond == -1 then 19 else 23)
    && Digits(s[..4]) && dt.year == 1000 * D(s[0]) + 100 * D(s[1]) + 10 * D(s[2]) + D(s[3])
    && s[4] == '-' && TwoDigits(s, 5, dt.month) && s[7] == '-' && TwoDigits(s, 8, dt.day)
    && (dt.hour != -1 ==>
          && s[10] == ' ' && TwoDigits(s, 11, dt.hour) && s[13] == ':' && TwoDigits(s, 14, dt.minute)
          && s[16] == ':' && TwoDigits(s, 17, dt.second))
    && (dt.hour != -1 && dt.millisecond != -1 ==>
          s[19] == '.' && Digits(s[20..23]) && dt.millisecond == 100 * D(s[20]) + 10 * D(s[21]) + D(s[22]))
  }

  lemma TwoDigitValue(s: string)
    requires |s| == 2
    ensures Value(s) == 10 * D(s[0]) + D(s[1])
  {
    assert s[..1] == [s[0]] && [s[0]][..0] == "";
    assert Value([s[0]]) == D(s[0]);
  }

  lemma ThreeDigitValue(s: string)
    requires |s| == 3
    ensures Value(s) == 100 * D(s[0]) + 10 * D(s[1]) + D(s[2])
  {
    TwoDigitValue(s[..2]);
  }

  lemma FourDigitValue(s: string)
    requires |s| == 4
    ensures Value(s) == 1000 * D(s[0]) + 100 * D(s[1]) + 10 * D(s[2]) + D(s[3])
  {
    ThreeDigitValue(s[..3]);
  }

  /** `%0*d` of a number: its digits, at least `width` characters, and zeros in front only to get there. */
  lemma {:induction false} PaddedNumber(n: nat, width: nat)
    ensures var s := Padded(n, width);
            |s| >= width && s != "" && Digits(s) && Value(s) == n && (|s| > width && |s| > 1 ==> s[0] != '0')
    decreases n + width
  {
    if n < 10 && width <= 1 {
      assert [Digit(n)][..0] == "";
    } else {
      var w := if width > 0 then width - 1 else 0;
      PaddedNumber(n / 10, w);
      OneDigitMore(Padded(n / 10, w), n / 10, n % 10);
    }
  }

  lemma OneDigitMore(most: string, q: nat, r: nat)
    requires r < 10 && Digits(most) && Value(most) == q
    ensures var s := most + [Digit(r)]; Digits(s) && Value(s) == 10 * q + r && (most != "" ==> s[0] == most[0])
  {
    assert (most + [Digit(r)])[..|most|] == most;
  }

  /** A sign counts as a character. */
  lemma PaddedNegative(n: int, width: nat)
    requires n < 0
    ensures Padded(n, width) == "-" + Padded(-n, if width > 0 then width - 1 else 0)
  {
  }

  lemma FieldIs(s: string, width: nat, n: int)
    requires width > 0 && 0 <= n < Power10(width) && s == Padded(n, width)
    ensures |s| == width && AllDigits(s) && Value(s) == n
  {
    PaddedIs(n, width);
  }

  /** What is printed is the text of the fields. */
  lemma PrintedIsSpelled(dt: DateTime)
    requires Printable(dt)
    ensures Spelled(dt, PrintBody(dt))
  {
    hide Padded, Value, IndexOf, LastIndexOf;
    Widths();
    BodySplits(dt);
    var b, f := PrintBody(dt), PrintedFields(dt);
    FieldIs(f.year, 4, dt.year);
    FieldIs(f.mon, 2, dt.month);
    FieldIs(f.day, 2, dt.day);
    if dt.hour != -1 {
      FieldIs(f.hour, 2, dt.hour);
      FieldIs(f.min, 2, dt.minute);
      FieldIs(f.sec, 2, dt.second);
      if dt.millisecond != -1 { FieldIs(f.msec, 3, dt.millisecond); }
    }
    FieldsAreSpelled(b, f, dt);
  }

  /** A text that is cut into digit strings is the text of their values. */
  lemma FieldsAreSpelled(s: string, f: Fields, dt: DateTime)
    requires Split(s) == Some(f) && |s| == (if dt.hour == -1 then 10 else if dt.millisecond == -1 then 19 else 23)
    requires AllDigits(f.year) && AllDigits(f.mon) && AllDigits(f.day)
    requires dt.year == Value(f.year) && dt.month == Value(f.mon) && dt.day == Value(f.day)
    requires dt.hour != -1 ==>
               && AllDigits(f.hour) && AllDigits(f.min) && AllDigits(f.sec)
               && dt.hour == Value(f.hour) && dt.minute == Value(f.min) && dt.second == Value(f.sec)
    requires dt.hour != -1 && dt.millisecond != -1 ==> AllDigits(f.msec) && dt.millisecond == Value(f.msec)
    ensures Spelled(dt, s)
  {
    hide Value;
    var d := s[..10];
    assert IndexOf(d, '-') == 4 && LastIndexOf(d, '-') == 7 && DateFields(d).Some? by {
      if |s| == 10 { assert d == s; }
    }
    assert f.year == d[..4] == s[..4] && f.mon == d[5..7] == s[5..7] && f.day == d[8..10] == s[8..10];
    assert s[4] == d[4] && s[7] == d[7];
    FourDigitValue(f.year);
    TwoDigitValue(f.mon);
    TwoDigitValue(f.day);
    if dt.hour != -1 { ClockIsSpelled(s, f, dt); }
  }

  lemma ClockIsSpelled(s: string, f: Fields, dt: DateTime)
    requires Split(s) == Some(f) && |s| == (if dt.millisecond == -1 then 19 else 23)
    requires AllDigits(f.hour) && AllDigits(f.min) && AllDigits(f.sec)
    requires dt.hour == Value(f.hour) && dt.minute == Value(f.min) && dt.second == Value(f.sec)
    requires dt.millisecond != -1 ==> AllDigits(f.msec) && dt.millisecond == Value(f.msec)
    ensures s[10] == ' ' && TwoDigits(s, 11, dt.hour) && s[13] == ':' && TwoDigits(s, 14, dt.minute)
    ensures s[16] == ':' && TwoDigits(s, 17, dt.second)
    ensures dt.millisecond != -1 ==>
              s[19] == '.' && Digits(s[20..23]) && dt.millisecond == 100 * D(s[20]) + 10 * D(s[21]) + D(s[22])
  {
    hide Value;
    var c := s[11..];
    assert c[2] == s[13] && c[5] == s[16];
    assert f.hour == c[..2] == s[11..13] && f.min == c[3..5] == s[14..16] && f.sec == c[6..8] == s[17..19];
    TwoDigitValue(f.hour);
    TwoDigitValue(f.min);
    TwoDigitValue(f.sec);
    if dt.millisecond != -1 {
      assert c[5..][3] == s[19];
      assert f.msec == c[9..12] == s[20..23];
      ThreeDigitValue(f.msec);
    }
  }

  /** The fields determine the text. */
  lemma SpelledOnce(dt: DateTime, s: string, t: string)
    requires Spelled(dt, s) && Spelled(dt, t)
    ensures s == t
  {
    SameDate(dt, s, t);
    assert s[..10] == t[..10];
    if dt.hour != -1 { SameClock(dt, s, t); }
    assert forall i :: 0 <= i < 10 ==> s[i] == s[..10][i] == t[..10][i] == t[i];
  }

  lemma SameDate(dt: DateTime, s: string, t: string)
    requires Spelled(dt, s) && Spelled(dt, t)
    ensures forall i :: 0 <= i < 10 ==> s[i] == t[i]
  {
    hide TwoDigits;
    SameFour(s[..4], t[..4], dt.year);
    assert forall i :: 0 <= i < 4 ==> s[i] == s[..4][i] && t[i] == t[..4][i];
    SameTwo(s, t, 5, dt.month);
    SameTwo(s, t, 8, dt.day);
  }

  lemma SameFour(s: string, t: string, n: int)
    requires |s| == |t| == 4 && Digits(s) && Digits(t)
    requires n == 1000 * D(s[0]) + 100 * D(s[1]) + 10 * D(s[2]) + D(s[3])
    requires n == 1000 * D(t[0]) + 100 * D(t[1]) + 10 * D(t[2]) + D(t[3])
    ensures s == t
  {
    SamePlaces(D(s[0]), D(s[1]), D(s[2]), D(s[3]), D(t[0]), D(t[1]), D(t[2]), D(t[3]));
  }

  lemma SamePlaces(a: int, b: int, c: int, d: int, a': int, b': int, c': int, d': int)
    requires 0 <= a < 10 && 0 <= b < 10 && 0 <= c < 10 && 0 <= d < 10
    requires 0 <= a' < 10 && 0 <= b' < 10 && 0 <= c' < 10 && 0 <= d' < 10
    requires 1000 * a + 100 * b + 10 * c + d == 1000 * a' + 100 * b' + 10 * c' + d'
    ensures a == a' && b == b' && c == c' && d == d'
  {
    assert a == a';
    assert b == b';
  }

  lemma SameThree(s: string, t: string, n: int)
    requires |s| == |t| == 3 && Digits(s) && Digits(t)
    requires n == 100 * D(s[0]) + 10 * D(s[1]) + D(s[2]) == 100 * D(t[0]) + 10 * D(t[1]) + D(t[2])
    ensures s == t
  {
    SamePlaces(0, D(s[0]), D(s[1]), D(s[2]), 0, D(t[0]), D(t[1]), D(t[2]));
  }

  lemma SameClock(dt: DateTime, s: string, t: string)
    requires Spelled(dt, s) && Spelled(dt, t) && dt.hour != -1
    ensures forall i :: 10 <= i < |s| ==> s[i] == t[i]
  {
    hide TwoDigits;
    SameTwo(s, t, 11, dt.hour);
    SameTwo(s, t, 14, dt.minute);
    SameTwo(s, t, 17, dt.second);
    if dt.millisecond != -1 {
      SameThree(s[20..23], t[20..23], dt.millisecond);
      assert forall i :: 20 <= i < 23 ==> s[i] == s[20..23][i - 20] && t[i] == t[20..23][i - 20];
    }
  }

  lemma SameTwo(s: string, t: string, i: nat, n: int)
    requires TwoDigits(s, i, n) && TwoDigits(t, i, n)
    ensures s[i] == t[i] && s[i + 1] == t[i + 1]
  {
    assert s[i] == s[i..i + 2][0] && s[i + 1] == s[i..i + 2][1] && t[i] == t[i..i + 2][0] && t[i + 1] == t[i..i + 2][1];
  }

  // ----- the zone -----

  /** The text of a zone: a sign, hours, a colon or a point, minutes; none for -1. */
  ghost predicate ZoneSpelled(tz: int, z: string) {
    if tz == -1 then z == ""
    else
      && |z| == 6 && z[0] in "+E-W" && Digits(z[1..3]) && z[3] in ":." && Digits(z[4..6])
      && var h, m := 10 * D(z[1]) + D(z[2]), 10 * D(z[4]) + D(z[5]);
         h <= 23 && m <= 59 && tz == if z[0] in "+E" then 100 * h + m else -(100 * h + m)
  }

  lemma ZoneSpelledIff(tz: int, z: string)
    requires z != ""
    ensures tz != -1 && ParseZone(z) == tz <==> ZoneSpelled(tz, z)
  {
    hide Value;
    if |z| == 6 {
      TwoDigitValue(z[1..3]);
      TwoDigitValue(z[4..6]);
    }
  }

  /** Where the zone starts: at the first `+`; else at the first E; else at the first W; else at the last dash, if
      a colon or a point stands three characters behind it. */
  ghost predicate ZoneStartsAt(s: string, k: nat) {
    if k == |s| then
      && '+' !in s && 'E' !in s && 'W' !in s
      && forall j :: 0 <= j < |s| && s[j] == '-' && '-' !in s[j + 1..] ==> j + 3 >= |s| || s[j + 3] !in ":."
    else
      && k < |s|
      && match s[k]
         case '+' => '+' !in s[..k]
         case 'E' => '+' !in s && 'E' !in s[..k]
         case 'W' => '+' !in s && 'E' !in s && 'W' !in s[..k]
         case '-' => '+' !in s && 'E' !in s && 'W' !in s && '-' !in s[k + 1..] && k + 3 < |s| && s[k + 3] in ":."
         case _ => false
  }

  lemma ZoneStartsThere(s: string)
    ensures ZoneStartsAt(s, ZoneAt(s))
  {
    NotIn(s, '+');
    NotIn(s, 'E');
    NotIn(s, 'W');
  }

  lemma NotIn(s: string, c: char)
    ensures c !in s <==> IndexOf(s, c) == |s|
    ensures c !in s[..IndexOf(s, c)]
  {
    assert IndexOf(s, c) < |s| ==> s[IndexOf(s, c)] in s;
  }

  /** A zone is printed with a plus or a W, and a colon. */
  lemma PrintedZone(tz: int)
    requires ValidZone(tz)
    ensures ZoneSpelled(tz, PrintZone(tz))
    ensures tz != -1 ==> PrintZone(tz)[0] == (if tz < 0 then 'W' else '+') && PrintZone(tz)[3] == ':'
  {
    hide Padded, Value, ParseZone;
    if tz != -1 {
      ZoneIs(tz);
      Widths();
      var t := if tz < 0 then -tz else tz;
      PaddedIs(t / 100, 2);
      ZoneSpelledIff(tz, PrintZone(tz));
    }
  }

  /** There is only one such place. */
  lemma ZoneStartsOnce(s: string, k: nat)
    requires ZoneStartsAt(s, k)
    ensures ZoneAt(s) == k
  {
    NotIn(s, '+');
    NotIn(s, 'E');
    NotIn(s, 'W');
    var p := if k < |s| then s[k] else '.';
    if p == '+' || p == 'E' || p == 'W' { IndexIs(s, p, k); }
    if p == '-' { LastIndexIs(s, '-', k); }
    if k == |s| {
      var d := LastIndexOf(s, '-');
      assert d >= 0 ==> '-' !in s[d + 1..];
    }
  }

  // ----- what stands around the body -----

  predicate Blank(s: string) { forall i :: 0 <= i < |s| ==> s[i] as int == 32 || 9 <= s[i] as int <= 13 }

  /** In `t` the text between `a` and `b` stands between blanks, or between the first and the last quote. */
  predicate Bare(t: string, a: nat, b: nat) {
    && a <= b <= |t|
    && (('\'' !in t && Blank(t[..a]) && Blank(t[b..])) ||
        (1 <= a && b < |t| && t[a - 1] == '\'' && t[b] == '\'' && '\'' !in t[..a - 1] && '\'' !in t[b + 1..]))
  }

  /** Trimming on the left takes blanks away, and nothing else. */
  lemma {:induction false} LeftTrimmedIs(t: string) returns (c: nat)
    ensures c <= |t| && LeftTrimmed(t) == t[c..] && Blank(t[..c])
    ensures c < |t| ==> !IsSpace(t[c])
  {
    c := 0;
    if t != "" && IsSpace(t[0]) {
      var c' := LeftTrimmedIs(t[1..]);
      c := c' + 1;
      assert t[..c] == [t[0]] + t[1..][..c'] && t[c..] == t[1..][c'..];
    }
  }

  lemma {:induction false} RightTrimmedIs(t: string) returns (d: nat)
    ensures d <= |t| && RightTrimmed(t) == t[..d] && Blank(t[d..])
    ensures d > 0 ==> !IsSpace(t[d - 1])
  {
    d := |t|;
    if t != "" && IsSpace(t[|t| - 1]) {
      var most := t[..|t| - 1];
      d := RightTrimmedIs(most);
      assert t[d..] == most[d..] + [t[|t| - 1]] && t[..d] == most[..d];
    }
  }

  lemma BlankOutside(t: string, c: nat, d: nat)
    requires c <= |t| && d <= |t| && Blank(t[..c]) && Blank(t[d..])
    ensures forall i :: 0 <= i < |t| && !IsSpace(t[i]) ==> c <= i < d
  {
    assert forall i :: 0 <= i < c ==> t[i] == t[..c][i];
    assert forall i :: d <= i < |t| ==> t[i] == t[d..][i - d];
  }

  /** Trimmed at both ends. */
  lemma TrimmedIs(t: string) returns (c: nat, d: nat)
    ensures c <= d <= |t| && RightTrimmed(LeftTrimmed(t)) == t[c..d] && Blank(t[..c]) && Blank(t[d..])
    ensures c < d ==> !IsSpace(t[c]) && !IsSpace(t[d - 1])
    ensures forall i :: 0 <= i < |t| && !IsSpace(t[i]) ==> c <= i < d
  {
    c := LeftTrimmedIs(t);
    var e := RightTrimmedIs(t[c..]);
    d := c + e;
    assert t[c..][..e] == t[c..d] && t[c..][e..] == t[d..];
    BlankOutside(t, c, d);
    assert e > 0 ==> t[c..][e - 1] == t[d - 1];
  }

  lemma QuotesAre(u: string, a: nat, b: nat)
    requires 1 <= a <= b < |u| && u[a - 1] == u[b] == '\'' && '\'' !in u[..a - 1] && '\'' !in u[b + 1..]
    ensures Unquoted(u) == Some(u[a..b])
  {
    assert forall i :: 0 <= i < a - 1 ==> u[i] == u[..a - 1][i];
    assert forall i :: b < i < |u| ==> u[i] == u[b + 1..][i - b - 1];
    IndexIs(u, '\'', a - 1);
    LastIndexIs(u, '\'', b);
  }

  /** A text that starts and ends with a digit is found bare. */
  lemma BareIsFound(t: string, a: nat, b: nat)
    requires Bare(t, a, b) && a < b && IsDigit(t[a]) && IsDigit(t[b - 1])
    ensures Unquoted(RightTrimmed(LeftTrimmed(t))) == Some(t[a..b])
  {
    if '\'' !in t { BlanksAround(t, a, b); } else { QuotesAround(t, a, b); }
  }

  lemma BlanksAround(t: string, a: nat, b: nat)
    requires Bare(t, a, b) && a < b && IsDigit(t[a]) && IsDigit(t[b - 1]) && '\'' !in t
    ensures Unquoted(RightTrimmed(LeftTrimmed(t))) == Some(t[a..b])
  {
    var c, d := TrimmedIs(t);
    BlankOutside(t, a, b);
    assert c == a && d == b;
    LastIndexIs(t[a..b], '\'', -1);
  }

  lemma QuotesAround(t: string, a: nat, b: nat)
    requires Bare(t, a, b) && a < b && '\'' in t
    ensures Unquoted(RightTrimmed(LeftTrimmed(t))) == Some(t[a..b])
  {
    hide LeftTrimmed, RightTrimmed, Unquoted;
    var c, d := TrimmedIs(t);
    assert t[a - 1] == t[b] == '\'' && !IsSpace('\'');
    var u := t[c..d];
    assert u[..a - 1 - c] == t[..a - 1][c..];
    assert u[b + 1 - c..] == t[b + 1..][..d - b - 1];
    QuotesAre(u, a - c, b - c);
    SliceOfSlice(t, c, d, a - c, b - c);
  }

  lemma SliceOfSlice(t: string, c: nat, d: nat, i: nat, j: nat)
    requires c <= d <= |t| && i <= j <= d - c
    ensures t[c..d][i..j] == t[c + i..c + j]
  {
    var u, v := t[c..d][i..j], t[c + i..c + j];
    assert forall x :: 0 <= x < j - i ==> u[x] == v[x];
  }

  lemma FoundIsBare(t: string) returns (a: nat, b: nat)
    requires Unquoted(RightTrimmed(LeftTrimmed(t))).Some?
    ensures Bare(t, a, b) && Unquoted(RightTrimmed(LeftTrimmed(t))) == Some(t[a..b])
  {
    var c, d := TrimmedIs(t);
    var u := t[c..d];
    var i, j := IndexOf(u, '\''), LastIndexOf(u, '\'');
    if j < 0 {
      a, b := c, d;
      forall x | 0 <= x < |t| ensures t[x] != '\'' {
        if c <= x < d { assert u[x - c] == t[x]; }
      }
    } else {
      a, b := c + i + 1, c + j;
      assert u[j] == '\'';
      assert i < j;
      SliceOfSlice(t, c, d, i + 1, j);
      assert t[c + i] == u[i] && t[c + j] == u[j];
      BlankOutside(t, c, d);
      forall x | 0 <= x < a - 1 ensures t[x] != '\'' {
        if c <= x { assert u[x - c] == t[x]; }
      }
      forall x | b < x < |t| ensures t[x] != '\'' {
        if x < d { assert u[x - c] == t[x]; }
      }
    }
  }

  // ----- the theorem -----

  /** `s` is a spelling of the stamp: a zone from `k` on, the body between `a` and `b`. */
  ghost predicate SpellingOf(clock: Clock, s: string, r: Stamp, k: nat, a: nat, b: nat) {
    && k <= |s| && ZoneStartsAt(s, k) && ZoneSpelled(r.dt.timezone, s[k..])
    && b <= k && Bare(s[..k], a, b) && Spelled(r.dt, s[a..b]) && Printable(r.dt)
    && var h := if r.dt.hour == -1 then 0 else r.dt.hour;
       var seconds := clock.mktime(r.dt.year, r.dt.month, r.dt.day, h, r.dt.minute, r.dt.second);
       && seconds != -1
       && r.value == (seconds * 1000 + if r.dt.millisecond == -1 then 0 else r.dt.millisecond) % 0x1_0000_0000_0000_0000
  }

  /** Every spelling of a stamp is read as that stamp. */
  lemma SpellingIsRead(clock: Clock, s: string, r: Stamp, k: nat, a: nat, b: nat)
    requires SpellingOf(clock, s, r, k, a, b)
    ensures Parse(clock, s) == Some(r)
  {
    hide ZoneStartsAt, ZoneSpelled, Bare, Spelled, Split, Evaluate, PrintedFields, PrintBody, ParseZone, ZoneAt;
    hide Unquoted, RightTrimmed, LeftTrimmed, Plain;
    var t := s[..k];
    BareBounds(t, a, b);
    var body := s[a..b];
    ZoneStartsOnce(s, k);
    if k < |s| { ZoneSpelledIff(r.dt.timezone, s[k..]); } else { NoZoneText(r.dt.timezone, s[k..]); }
    PrintedIsSpelled(r.dt);
    SpelledOnce(r.dt, body, PrintBody(r.dt));
    BodySplits(r.dt);
    assert body == t[a..b];
    assert t[a] == body[0] && t[b - 1] == body[|body| - 1];
    BareIsFound(t, a, b);
    PrintedEvaluate(clock, r.dt);
  }

  lemma NoZoneText(tz: int, z: string)
    requires ZoneSpelled(tz, z) && z == ""
    ensures tz == -1
  {
  }

  lemma BareBounds(t: string, a: nat, b: nat)
    requires Bare(t, a, b)
    ensures a <= b <= |t|
  {
  }

  /** Whatever is read is read from a spelling. */
  lemma ReadIsSpelling(clock: Clock, s: string) returns (k: nat, a: nat, b: nat)
    requires Parse(clock, s).Some?
    ensures SpellingOf(clock, s, Parse(clock, s).value, k, a, b)
  {
    hide ZoneStartsAt, ZoneSpelled, Bare, Spelled, Split, ParseZone, ZoneAt, Value;
    hide Unquoted, RightTrimmed, LeftTrimmed, TimeIsValid;
    k := ZoneAt(s);
    var t, r := s[..k], Parse(clock, s).value;
    ZoneStartsThere(s);
    if k < |s| { ZoneSpelledIff(ParseZone(s[k..]), s[k..]); } else { NoZoneSpelled(s[k..]); }
    ParsedIsPrintable(clock, s);
    ParsedValue(clock, s);
    a, b := FoundIsBare(t);
    BareBounds(t, a, b);
    var u := t[a..b];
    assert u == s[a..b];
    SplitShape(u);
    ValueBound(Split(u).value.hour);
    ValueBound(Split(u).value.msec);
    FieldsAreSpelled(u, Split(u).value, r.dt);
  }

  lemma NoZoneSpelled(z: string)
    requires z == ""
    ensures ZoneSpelled(-1, z)
  {
  }
}
