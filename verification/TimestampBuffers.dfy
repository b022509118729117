/**
 * The timestamp printer and parser on character arrays. The parser cuts its argument into pieces by
 * writing terminators into it.
 */
module TimestampBuffers {
  import opened Common
  import opened TrimWhitespace
  import opened Timestamp

  const CSTR_DATETIME_SIZE_MAX := 30

  // ----- strings in an array -----

  /** A string starts at `p` and ends at the terminator `e`. */
  predicate CStr(a: seq<char>, p: nat, e: nat) {
    p <= e < |a| && a[e] == '\0' && forall i :: p <= i < e ==> a[i] != '\0'
  }

  method StrChr(a: array<char>, p: nat, ghost e: nat, c: char) returns (k: Option<nat>)
    requires CStr(a[..], p, e) && c != '\0'
    ensures var i := IndexOf(a[p..e], c); k == if i < e - p then Some(p + i) else None
  {
    var i := p;
    while a[i] != '\0' && a[i] != c
      invariant p <= i <= e && forall j :: p <= j < i ==> a[j] != c
      decreases e - i
    {
      i := i + 1;
    }
    ghost var t := a[p..e];
    assert i < e ==> t[i - p] == a[i];
    IndexIs(t, c, i - p);
    if a[i] == '\0' { return None; }
    return Some(i);
  }

  method StrRChr(a: array<char>, p: nat, ghost e: nat, c: char) returns (k: Option<nat>)
    requires CStr(a[..], p, e) && c != '\0'
    ensures var i := LastIndexOf(a[p..e], c); k == if i >= 0 then Some(p + i) else None
  {
    var i, last := p, -1;
    while a[i] != '\0'
      invariant p <= i <= e && (last == -1 || (p <= last < i && a[last] == c))
      invariant forall j :: p <= j < i && last < j ==> a[j] != c
      decreases e - i
    {
      if a[i] == c { last := i; }
      i := i + 1;
    }
    ghost var t := a[p..e];
    assert last >= 0 ==> t[last - p] == a[last];
    LastIndexIs(t, c, if last >= 0 then last - p else -1);
    return if last >= 0 then Some(last) else None;
  }

  method StrLen(a: array<char>, p: nat, ghost e: nat) returns (n: nat)
    requires CStr(a[..], p, e)
    ensures n == e - p
  {
    n := 0;
    while a[p + n] != '\0'
      invariant p + n <= e
      decreases e - p - n
    {
      n := n + 1;
    }
  }

  // ----- printing -----

  /** `snprintf_chkd_V1` to position `at`: what is cut off for lack of room is not counted. */
  method Snprintf(out: array<char>, at: nat, text: string) returns (len: int)
    requires at <= out.Length && out.Length > 0
    modifies out
    ensures len == if at + |text| < out.Length then |text| else out.Length - at - 1
    ensures out[at + len] == '\0'
    ensures if len >= 0 then out[..at + len] == old(out[..at]) + text[..len] else out[..at - 1] == old(out[..at - 1])
  {
    len := if at + |text| < out.Length then |text| else out.Length - at - 1;
    if len >= 0 { CopyChars(out, at, text[..len]); }
    ghost var all := out[..at + len];
    out[at + len] := '\0';
    assert out[..at + len] == all;
  }

  /** What the buffer of 30 characters can hold of a text. */
  function Fitting(t: string): (r: string)
    ensures |r| < CSTR_DATETIME_SIZE_MAX
  {
    if |t| < CSTR_DATETIME_SIZE_MAX then t else t[..CSTR_DATETIME_SIZE_MAX - 1]
  }

  lemma FittingAppend(t: string, u: string)
    ensures var k := |Fitting(t)|;
            var n := if k + |u| < CSTR_DATETIME_SIZE_MAX then |u| else CSTR_DATETIME_SIZE_MAX - k - 1;
            |Fitting(t + u)| == k + n && Fitting(t + u) == Fitting(t) + u[..n]
  {
  }

  lemma {:induction false} PaddedNoNull(n: int, width: nat)
    ensures '\0' !in Padded(n, width) && Padded(n, width) != ""
    decreases n < 0, (if n < 0 then 0 else n) + width
  {
    if n < 0 {
      PaddedNoNull(-n, if width > 0 then width - 1 else 0);
    } else if !(n < 10 && width <= 1) {
      PaddedNoNull(n / 10, if width > 0 then width - 1 else 0);
    }
  }

  lemma PartsNoNull(dt: DateTime)
    ensures '\0' !in PrintDate(dt) && '\0' !in PrintClock(dt) && '\0' !in PrintMsec(dt.millisecond)
            && '\0' !in PrintZone(dt.timezone)
    ensures dt.year != -1 ==> PrintDate(dt) != ""
  {
    hide Padded;
    PaddedNoNull(dt.year, 4);
    PaddedNoNull(dt.month, 2);
    PaddedNoNull(dt.day, 2);
    PaddedNoNull(dt.hour, 2);
    PaddedNoNull(dt.minute, 2);
    PaddedNoNull(dt.second, 2);
    PaddedNoNull(dt.millisecond, 3);
    var t := if dt.timezone < 0 then -dt.timezone else dt.timezone;
    PaddedNoNull(t / 100, 2);
    PaddedNoNull(t % 100, 2);
  }

  /** The buffer holds the text, or as much of it as it has room for. */
  method DatetimePrint(dt: DateTime, outfmt: array<char>)
    requires outfmt.Length == 30
    modifies outfmt
    ensures var text := if |Print(dt)| <= 29 then Print(dt) else Print(dt)[..29];
            CStr(outfmt[..], 0, |text|) && outfmt[..|text|] == text
  {
    hide PrintBody, PrintZone, PrintMsec, Fitting, DateAndClock;
    BodyIs(dt);
    var len := WriteDateAndClock(dt, outfmt);
    if dt.millisecond != -1 {
      len := WriteMore(outfmt, len, DateAndClock(dt), PrintMsec(dt.millisecond));
    } else {
      NoMsec();
      assert DateAndClock(dt) + "" == DateAndClock(dt);
    }
    if dt.timezone != -1 {
      len := WriteMore(outfmt, len, PrintBody(dt), PrintZone(dt.timezone));
    } else {
      NoZone();
      assert PrintBody(dt) + "" == PrintBody(dt);
    }
    PrintedString(outfmt, dt);
    FittingIs(Print(dt));
  }

  lemma FittingIs(t: string)
    ensures Fitting(t) == if |t| <= 29 then t else t[..29]
  {
  }

  /** Print a further part behind what the buffer holds. */
  method WriteMore(outfmt: array<char>, at: nat, ghost before: string, text: string) returns (len: nat)
    requires outfmt.Length == CSTR_DATETIME_SIZE_MAX && at == |Fitting(before)| && outfmt[..at] == Fitting(before)
    modifies outfmt
    ensures len == |Fitting(before + text)| && outfmt[..len] == Fitting(before + text) && outfmt[len] == '\0'
  {
    hide Fitting;
    FittingAppend(before, text);
    var n := Snprintf(outfmt, at, text);
    len := at + n;
  }

  /** Where the date fills the buffer, the space goes to its last cell, and the clock replaces it by the terminator. */
  method WriteDateAndClock(dt: DateTime, outfmt: array<char>) returns (len: nat)
    requires outfmt.Length == CSTR_DATETIME_SIZE_MAX
    modifies outfmt
    ensures var text := Fitting(DateAndClock(dt)); len == |text| && outfmt[..len] == text && outfmt[len] == '\0'
  {
    hide PrintDate, PrintClock, Fitting;
    ghost var date := PrintDate(dt);
    len := 0;
    outfmt[0] := '\0';
    FittingAppend("", date);
    NothingCut();
    assert "" + date == date && outfmt[..0] == "";
    if dt.year != -1 { len := Snprintf(outfmt, 0, PrintDate(dt)); } else { NoParts(dt); }
    assert outfmt[..len] == Fitting(date);
    if dt.hour != -1 { len := WriteClock(outfmt, len, date, PrintClock(dt)); }
  }

  method WriteClock(outfmt: array<char>, dlen: nat, ghost date: string, clock: string) returns (len: nat)
    requires outfmt.Length == CSTR_DATETIME_SIZE_MAX && dlen == |Fitting(date)| && outfmt[..dlen] == Fitting(date)
    modifies outfmt
    ensures var text := Fitting(date + (if date == "" then "" else " ") + clock);
            len == |text| && outfmt[..len] == text && outfmt[len] == '\0'
  {
    hide Fitting;
    SpaceFits(date);
    if dlen == 0 {
      FittingAppend(date, clock);
      assert date + "" + clock == date + clock;
      len := Snprintf(outfmt, 0, clock);
    } else {
      FittingAppend(date + " ", clock);
      outfmt[dlen] := ' ';
      assert outfmt[..dlen] == Fitting(date);
      assert outfmt[..dlen + 1] == Fitting(date) + " ";
      var tlen := Snprintf(outfmt, dlen + 1, clock);
      len := dlen + 1 + tlen;
    }
  }

  /** One character more is written in full, or finds the buffer full. */
  lemma SpaceFits(date: string)
    ensures Fitting(date) == "" <==> date == ""
    ensures if |Fitting(date)| < CSTR_DATETIME_SIZE_MAX - 1 then Fitting(date + " ") == Fitting(date) + " "
            else Fitting(date + " ") == Fitting(date)
  {
  }

  lemma NothingCut()
    ensures Fitting("") == ""
  {
  }

  /** What stands before the milliseconds. */
  function DateAndClock(dt: DateTime): string {
    if dt.hour == -1 then PrintDate(dt) else PrintDate(dt) + (if PrintDate(dt) == "" then "" else " ") + PrintClock(dt)
  }

  lemma BodyIs(dt: DateTime)
    ensures PrintBody(dt) == DateAndClock(dt) + PrintMsec(dt.millisecond) && '\0' !in PrintBody(dt)
  {
    hide PrintDate, PrintClock, PrintMsec;
    PartsNoNull(dt);
  }

  lemma PrintedString(out: array<char>, dt: DateTime)
    requires var text := Fitting(Print(dt)); |text| < out.Length && out[..|text|] == text && out[|text|] == '\0'
    ensures CStr(out[..], 0, |Fitting(Print(dt))|)
  {
    hide PrintBody, PrintZone;
    BodyIs(dt);
    PartsNoNull(dt);
    var text := Fitting(Print(dt));
    forall i | 0 <= i < |text| ensures out[..][i] != '\0' {
      assert out[..][i] == out[..|text|][i] == Print(dt)[i];
    }
  }

  lemma NoParts(dt: DateTime)
    requires dt.year == -1
    ensures PrintDate(dt) == ""
  {
  }

  // ----- parsing: the time zone -----

  method FindZone(a: array<char>, ghost n: nat) returns (tz: Option<nat>)
    requires CStr(a[..], 0, n)
    ensures tz == if ZoneAt(a[..n]) < n then Some(ZoneAt(a[..n])) else None
  {
    hide IndexOf, LastIndexOf;
    assert a[0..n] == a[..n];
    tz := StrChr(a, 0, n, '+');
    if tz == None {
      tz := StrChr(a, 0, n, 'E');
      if tz == None {
        tz := StrChr(a, 0, n, 'W');
        if tz == None {
          tz := StrRChr(a, 0, n, '-');
          if tz.Some? {
            var k := tz.value;
            if a[k + 1] != '\0' && a[k + 2] != '\0' && (a[k + 3] == ':' || a[k + 3] == '.') {
            } else {
              tz := None;
            }
          }
        }
      }
    }
  }

  method ReadZone(a: array<char>, p: nat, ghost e: nat) returns (z: int)
    requires CStr(a[..], p, e) && p < e
    ensures z == ParseZone(a[p..e])
  {
    ghost var t := a[p..e];
    assert forall i :: 0 <= i < e - p ==> t[i] == a[p + i];
    var sign := 0;
    if a[p] == '+' || a[p] == 'E' { sign := 1; } else if a[p] == '-' || a[p] == 'W' { sign := -1; }
    if sign == 0 { return -1; }
    if IsDigit(a[p + 1]) && IsDigit(a[p + 2]) && (a[p + 3] == ':' || a[p + 3] == '.')
       && IsDigit(a[p + 4]) && IsDigit(a[p + 5]) && a[p + 6] == '\0' {
      assert t[1..3] == a[p + 1..p + 3] && t[4..6] == a[p + 4..p + 6];
      var h, m := Value(a[p + 1..p + 3]), Value(a[p + 4..p + 6]);
      if h > 23 || m > 59 { return -1; }
      return (h * 100 + m) * sign;
    }
    if |t| == 6 {
      assert AllDigits(t[1..3]) ==> IsDigit(t[1..3][0]) && IsDigit(t[1..3][1]);
      assert AllDigits(t[4..6]) ==> IsDigit(t[4..6][0]) && IsDigit(t[4..6][1]);
    }
    return -1;
  }

  // ----- parsing: the body -----

  /** Move the start behind the leading whitespace. */
  method LeftTrim(a: array<char>, ghost n: nat) returns (p: nat)
    requires CStr(a[..], 0, n)
    ensures p <= n && CStr(a[..], p, n) && a[p..n] == LeftTrimmed(a[..n])
  {
    p := 0;
    assert a[0..n] == a[..n];
    while IsSpace(a[p])
      invariant p <= n && LeftTrimmed(a[p..n]) == LeftTrimmed(a[..n])
      decreases n - p
    {
      assert a[p..n][0] == a[p] && a[p..n][1..] == a[p + 1..n];
      p := p + 1;
    }
    assert p < n ==> a[p..n][0] == a[p];
  }

  /** Cut off the trailing whitespace. */
  method RightTrim(a: array<char>, p: nat, len: nat) returns (left: nat)
    requires CStr(a[..], p, p + len)
    modifies a
    ensures CStr(a[..], p, p + left) && a[p..p + left] == RightTrimmed(old(a[p..p + len]))
  {
    left := len;
    ghost var all := a[p..p + len];
    while left > 0 && IsSpace(a[p + left - 1])
      invariant CStr(a[..], p, p + left) && RightTrimmed(a[p..p + left]) == RightTrimmed(all)
    {
      ghost var t := a[p..p + left - 1];
      assert a[p..p + left][left - 1] == a[p + left - 1] && a[p..p + left][..left - 1] == t;
      left := left - 1;
      a[p + left] := '\0';
      assert a[p..p + left] == t;
    }
    assert left > 0 ==> a[p..p + left][left - 1] == a[p + left - 1];
  }

  method Trim(a: array<char>, ghost n: nat) returns (p: nat, ghost e: nat)
    requires CStr(a[..], 0, n)
    modifies a
    ensures CStr(a[..], p, e) && a[p..e] == RightTrimmed(LeftTrimmed(old(a[..n])))
  {
    p := LeftTrim(a, n);
    var len := StrLen(a, p, n);
    var left := RightTrim(a, p, len);
    e := p + left;
  }

  /** Step into quotes, if there are any. The length is -1 after a lone quote. */
  method StepIntoQuotes(a: array<char>, p: nat, ghost e: nat) returns (str: nat, len: int, ghost end: nat)
    requires CStr(a[..], p, e)
    modifies a
    ensures match Unquoted(old(a[p..e]))
            case None => len == -1
            case Some(s) => CStr(a[..], str, end) && a[str..end] == s && (len == |s| || (len == 30 && |s| >= 30))
  {
    hide IndexOf, LastIndexOf;
    ghost var t := a[p..e];
    var qa := StrChr(a, p, e, '\'');
    var qb := StrRChr(a, p, e, '\'');
    if qa.Some? && qb.Some? {
      QuotesInOrder(t);
      str, len, end := Unquote(a, p, e, qa.value, qb.value);
    } else {
      var n := StrLen(a, p, e);
      str, len, end := p, if n < 30 then n else 30, e;
    }
  }

  lemma QuotesInOrder(s: string)
    ensures LastIndexOf(s, '\'') >= 0 ==> IndexOf(s, '\'') <= LastIndexOf(s, '\'')
  {
    hide IndexOf, LastIndexOf;
  }

  /** Cut the string at its quotes. */
  method Unquote(a: array<char>, ghost p: nat, ghost e: nat, i: nat, j: nat)
    returns (str: nat, len: int, ghost end: nat)
    requires CStr(a[..], p, e) && p <= i <= j < e
    modifies a
    ensures len == j - i - 1
    ensures i < j ==> CStr(a[..], str, end) && a[str..end] == old(a[p..e])[i - p + 1..j - p]
  {
    ghost var was := a[..];
    a[i] := '\0';
    a[j] := '\0';
    str, len, end := i + 1, (j - 1) - (i + 1) + 1, j;
    if i < j { PieceKept(was, a[..], p, e, i + 1, j); }
  }

  /** `%.*s`: at most `k` characters of a string. */
  method Copy(a: array<char>, p: nat, ghost e: nat, k: nat) returns (s: string)
    requires CStr(a[..], p, e)
    ensures s == a[p..if p + k < e then p + k else e]
  {
    s := "";
    while |s| < k && a[p + |s|] != '\0'
      invariant p + |s| <= e && |s| <= k && s == a[p..p + |s|]
    {
      s := s + [a[p + |s|]];
    }
  }

  /** Cut `yyyy-mm-dd` at its dashes. */
  method CutDate(a: array<char>, p: nat, ghost e: nat) returns (f: Option<Fields>)
    requires CStr(a[..], p, e) && e == p + 10
    modifies a
    ensures f == DateFields(old(a[p..e]))
    ensures forall i :: 0 <= i < a.Length && !(p <= i < e) ==> a[i] == old(a[i])
  {
    hide IndexOf, LastIndexOf;
    var i := StrChr(a, p, e, '-');
    var j := StrRChr(a, p, e, '-');
    ghost var t := a[p..e];
    if i != Some(p + 4) || j != Some(p + 7) { return None; }
    a[p + 4] := '\0';
    a[p + 7] := '\0';
    assert a[p..p + 4] == t[..4] && a[p + 5..p + 7] == t[5..7] && a[p + 8..p + 10] == t[8..10];
    var year := Copy(a, p, p + 4, 4);
    var mon := Copy(a, p + 5, p + 7, 2);
    var day := Copy(a, p + 8, e, 2);
    return Some(Fields(year, mon, day, "00", "00", "00", "000"));
  }

  /** Cut `hh:mm:ss` or `hh:mm:ss.mmm` at its colons and its dot. */
  method CutClock(a: array<char>, p: nat, ghost e: nat, ms: bool, d: Fields) returns (f: Option<Fields>)
    requires CStr(a[..], p, e) && e == p + (if ms then 12 else 8)
    modifies a
    ensures f == ClockFields(d, old(a[p..e]))
  {
    hide IndexOf, LastIndexOf;
    var i := StrChr(a, p, e, ':');
    var j := StrRChr(a, p, e, ':');
    ghost var t := a[p..e];
    if i != Some(p + 2) || j != Some(p + 5) { return None; }
    if ms {
      assert a[p + 5..e] == t[5..];
      var dot := StrChr(a, p + 5, e, '.');
      if dot != Some(p + 8) { return None; }
    }
    f := CopyClock(a, p, e, ms, d);
  }

  /** Write the terminators, and copy the pieces. */
  method CopyClock(a: array<char>, p: nat, ghost e: nat, ms: bool, d: Fields) returns (f: Option<Fields>)
    requires CStr(a[..], p, e) && e == p + (if ms then 12 else 8)
    modifies a
    ensures var t := old(a[p..e]);
            f == Some(d.(hour := t[..2], min := t[3..5], sec := t[6..8], msec := if ms then t[9..12] else d.msec))
  {
    ghost var was := a[..];
    a[p + 2] := '\0';
    a[p + 5] := '\0';
    if ms { a[p + 8] := '\0'; }
    PiecesKept(was, a[..], p, e);
    var hour := Copy(a, p, p + 2, 2);
    var min := Copy(a, p + 3, p + 5, 2);
    var sec := Copy(a, p + 6, p + 8, 2);
    f := Some(d.(hour := hour, min := min, sec := sec));
    if ms {
      var msec := Copy(a, p + 9, e, 3);
      f := Some(f.value.(msec := msec));
    }
  }

  lemma PiecesKept(was: seq<char>, now: seq<char>, p: nat, e: nat)
    requires CStr(was, p, e) && (e == p + 8 || e == p + 12) && |now| == |was|
    requires || now == was[p + 2 := '\0'][p + 5 := '\0']
             || (e > p + 8 && now == was[p + 2 := '\0'][p + 5 := '\0'][p + 8 := '\0'])
    ensures now[p..p + 2] == was[p..e][..2] && now[p + 3..p + 5] == was[p..e][3..5]
            && now[p + 6..p + 8] == was[p..e][6..8]
    ensures e > p + 8 ==> now[p + 9..e] == was[p..e][9..12]
  {
    PieceKept(was, now, p, e, p, p + 2);
    PieceKept(was, now, p, e, p + 3, p + 5);
    PieceKept(was, now, p, e, p + 6, p + 8);
    if e > p + 8 { PieceKept(was, now, p, e, p + 9, e); }
  }

  lemma PieceKept(was: seq<char>, now: seq<char>, p: nat, e: nat, x: nat, y: nat)
    requires p <= x <= y <= e <= |was| == |now| && forall i :: x <= i < y ==> now[i] == was[i]
    ensures now[x..y] == was[p..e][x - p..y - p]
  {
    var t := was[p..e];
    forall k | 0 <= k < y - x ensures now[x..y][k] == t[x - p..y - p][k] {
      assert now[x..y][k] == now[x + k] == was[x + k] == t[x - p + k];
    }
  }

  method Cut(a: array<char>, str: nat, len: int, ghost e: nat) returns (f: Option<Fields>)
    requires CStr(a[..], str, e) && (len == e - str || (len == 30 && e - str >= 30))
    modifies a
    ensures f == Split(old(a[str..e]))
  {
    hide DateFields, ClockFields;
    ghost var t := a[str..e];
    if len == 10 {
      f := CutDate(a, str, e);
    } else if len == 19 || len == 23 {
      var k := StrChr(a, str, e, ' ');
      if k != Some(str + 10) { return None; }
      assert a[str..str + 10] == t[..10] && a[str + 11..e] == t[11..];
      a[str + 10] := '\0';
      assert a[str..str + 10] == t[..10] && a[str + 11..e] == t[11..];
      f := CutDate(a, str, str + 10);
      if f == None { return None; }
      assert a[str + 11..e] == t[11..];
      f := CutClock(a, str + 11, e, len == 23, f.value);
    } else {
      f := None;
    }
  }

  method ParseTimestamp(clock: Clock, timestr: array<char>, ghost n: nat) returns (r: Option<Stamp>)
    requires CStr(timestr[..], 0, n)
    modifies timestr
    ensures r == Parse(clock, old(timestr[..n]))
  {
    hide ZoneAt, ParseZone, Unquoted, LeftTrimmed, RightTrimmed, Split, Evaluate;
    ghost var s := timestr[..n];
    ghost var end := n;
    var zone := -1;
    var tz := FindZone(timestr, n);
    if tz.Some? {
      var k := tz.value;
      assert timestr[k..n] == s[k..];
      zone := ReadZone(timestr, k, n);
      if zone == -1 { return None; }
      timestr[k] := '\0';
      end := k;
    }
    assert timestr[..end] == s[..ZoneAt(s)];
    r := ParseDateTime(clock, timestr, end, zone);
  }

  method ParseDateTime(clock: Clock, timestr: array<char>, ghost n: nat, zone: int) returns (r: Option<Stamp>)
    requires CStr(timestr[..], 0, n)
    modifies timestr
    ensures r == ParseBody(clock, old(timestr[..n]), zone)
  {
    hide Unquoted, LeftTrimmed, RightTrimmed, Split, Evaluate;
    ghost var body := timestr[..n];
    var p, e := Trim(timestr, n);
    var str, len, end := StepIntoQuotes(timestr, p, e);
    if len == -1 { return None; }
    var f := Cut(timestr, str, len, end);
    if f == None { return None; }
    return Evaluate(clock, f.value, len != 10, len == 23, zone);
  }
}
