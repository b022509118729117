/**
 What one call of `getopt` does, as a function of a cursor over arguments that never move, and the
 simple element-by-element parse that the calls must add up to.
 */
module GetoptScan {
  import opened Common
  import opened GetoptLookup

  datatype Ordering = RequireOrder | Permute | ReturnInOrder

  datatype Config = Config(ordering: Ordering, longopts: Option<seq<LongOpt>>)

  /** What a caller sees of one option: the returned code, `optarg`, `optopt` and `*longind` when
      they are set, and the pair stored through an option's `flag`. */
  datatype Event = Event(code: int, arg: Option<string>, opt: Option<int>,
                         longIndex: Option<nat>, store: Option<(nat, int)>)

  function Plain(code: int, arg: Option<string>): Event {
    Event(code, arg, None, None, None)
  }

  function Failing(code: int, opt: int): Event {
    Event(code, None, Some(opt), None, None)
  }

  /** One decoded option: its event, by how much `optind` grows, and the new `nextchar`. */
  datatype Decoded = Decoded(event: Event, used: nat, rest: Option<string>)

  predicate NonOption(arg: string) {
    arg == "" || arg[0] != '-' || |arg| == 1
  }

  const TERMINATOR := "--"

  predicate IsLong(longopts: Option<seq<LongOpt>>, elem: string) {
    longopts.Some? && |elem| >= 2 && elem[1] == '-'
  }

  /** The option string does not ask for the `-W foo` extension. */
  predicate NoWExtension(os: string) {
    forall i :: 0 <= i < |os| - 1 ==> !(os[i] == 'W' && os[i + 1] == ';')
  }

  function MissingCode(os: string): int {
    if os != "" && os[0] == ':' then ':' as int else '?' as int
  }

  function Chosen(o: LongOpt, index: nat, arg: Option<string>): Event {
    Event(if o.flag.Some? then 0 else o.val, arg, None, Some(index),
          if o.flag.Some? then Some((o.flag.value, o.val)) else None)
  }

  /** A long option, with an argument if it requires one, and none behind `=` if it takes none. */
  predicate LongAcceptable(longopts: seq<LongOpt>, word: string, following: Option<string>) {
    var found := LookUp(longopts, word[..IndexOf(word, '=')], false);
    && found.Found?
    && var o := longopts[found.index]; if '=' in word then o.hasArg != 0 else o.hasArg == 1 ==> following.Some?
  }

  /** A long option word, without its dashes; `following` is the next argument, if there is one. */
  function DecodeLong(os: string, longopts: seq<LongOpt>, word: string, following: Option<string>): (d: Decoded)
    ensures 1 <= d.used <= (if following.Some? then 2 else 1) && d.rest == Some("")
    ensures d.event.longIndex.Some? <==> LongAcceptable(longopts, word, following)
    ensures d.event.longIndex.Some? ==>
              && LookUp(longopts, word[..IndexOf(word, '=')], false) == Found(d.event.longIndex.value)
              && var o := longopts[d.event.longIndex.value];
                 && d.event.opt == None && (d.event.arg.Some? <==> '=' in word || o.hasArg == 1)
                 && (o.flag == None ==> d.event.code == o.val && d.event.store == None)
                 && (o.flag.Some? ==> d.event.code == 0 && d.event.store == Some((o.flag.value, o.val)))
    ensures d.event.longIndex.None? ==>
              && d.event.arg == None && d.event.store == None && d.used == 1
              && match LookUp(longopts, word[..IndexOf(word, '=')], false)
                 case Found(i) => d.event.code == (if '=' in word then '?' as int else MissingCode(os))
                                  && d.event.opt == Some(longopts[i].val)
                 case _ => d.event.code == '?' as int && d.event.opt == Some(0)
    ensures d.event.arg.Some? ==>
              if IndexOf(word, '=') < |word| then d.event.arg.value == word[IndexOf(word, '=') + 1..] && d.used == 1
              else d.event.arg == following && d.used == 2
  {
    var end := IndexOf(word, '=');
    match LookUp(longopts, word[..end], false)
    case Ambiguous => Decoded(Failing('?' as int, 0), 1, Some(""))
    case NotFound => Decoded(Failing('?' as int, 0), 1, Some(""))
    case Found(i) =>
      var o := longopts[i];
      if end < |word| then
        if o.hasArg != 0 then Decoded(Chosen(o, i, Some(word[end + 1..])), 1, Some(""))
        else Decoded(Failing('?' as int, o.val), 1, Some(""))
      else if o.hasArg == 1 then
        match following
        case Some(a) => Decoded(Chosen(o, i, Some(a)), 2, Some(""))
        case None => Decoded(Failing(MissingCode(os), o.val), 1, Some(""))
      else Decoded(Chosen(o, i, None), 1, Some(""))
  }

  datatype Kind = Unknown | NoArg | Required | Optional

  /** How the option string classifies a short option character. */
  function KindOf(os: string, c: char): Kind {
    var k := IndexOf(os, c);
    if k == |os| || c == ':' then Unknown
    else if k + 1 < |os| && os[k + 1] == ':' then
      if k + 2 < |os| && os[k + 2] == ':' then Optional else Required
    else NoArg
  }

  /** A declared option character, with its argument if it requires one. */
  predicate Acceptable(os: string, text: string, following: Option<string>)
    requires text != ""
  {
    KindOf(os, text[0]) != Unknown && (KindOf(os, text[0]) == Required ==> |text| > 1 || following.Some?)
  }

  /** The next short option of a cluster whose remaining text is `text`. */
  function DecodeShort(os: string, text: string, following: Option<string>): (d: Decoded)
    requires text != ""
    ensures d.used <= (if following.Some? then 2 else 1)
    ensures d.used == 0 ==> d.rest == Some(text[1..]) && |text| > 1
    ensures d.used > 0 ==> d.rest == None || d.rest == Some("")
    ensures d.used == 0 <==> |text| > 1 && (KindOf(os, text[0]) == NoArg || KindOf(os, text[0]) == Unknown)
    ensures d.event.longIndex == None && d.event.store == None
    ensures Acceptable(os, text, following) ==>
              && d.event.code == CharCode(text[0]) && d.event.opt == None
              && (d.event.arg.Some? <==>
                    KindOf(os, text[0]) == Required || (KindOf(os, text[0]) == Optional && |text| > 1))
    ensures !Acceptable(os, text, following) ==>
              && d.event.code == (if KindOf(os, text[0]) == Unknown then '?' as int else MissingCode(os))
              && d.event.opt == Some(CharCode(text[0])) && d.event.arg == None
    ensures d.event.arg.Some? ==>
              if |text| > 1 then d.event.arg.value == text[1..] && d.used == 1
              else d.event.arg == following && d.used == 2
  {
    var c, rest := text[0], text[1..];
    var step := if rest == "" then 1 else 0;
    match KindOf(os, c)
    case Unknown => Decoded(Failing('?' as int, CharCode(c)), step, Some(rest))
    case NoArg => Decoded(Plain(CharCode(c), None), step, Some(rest))
    case Optional => Decoded(Plain(CharCode(c), if rest == "" then None else Some(rest)), 1, None)
    case Required =>
      if rest != "" then Decoded(Plain(CharCode(c), Some(rest)), 1, None)
      else match following
        case Some(a) => Decoded(Plain(CharCode(c), Some(a)), 2, None)
        case None => Decoded(Failing(MissingCode(os), CharCode(c)), 1, None)
  }

  function Head(args: seq<string>): Option<string> {
    if args == [] then None else Some(args[0])
  }

  // ----- the simple parse: element by element, nothing moves -----

  /** Events, the elements used up as options (with their arguments and the terminator), and the others. */
  datatype Parse = Parse(events: seq<Event>, opts: seq<string>, nons: seq<string>)

  function ParseCluster(os: string, text: string, following: Option<string>): (r: (seq<Event>, nat))
    requires text != ""
    ensures 1 <= r.1 <= (if following.Some? then 2 else 1)
  {
    var d := DecodeShort(os, text, following);
    if d.used > 0 then ([d.event], d.used)
    else
      var r := ParseCluster(os, text[1..], following);
      ([d.event] + r.0, r.1)
  }

  function ParseElement(os: string, longopts: Option<seq<LongOpt>>, elem: string,
                        following: Option<string>): (r: (seq<Event>, nat))
    requires !NonOption(elem) && elem != TERMINATOR
    ensures 1 <= r.1 <= (if following.Some? then 2 else 1)
  {
    if IsLong(longopts, elem) then
      var d := DecodeLong(os, longopts.value, elem[2..], following);
      ([d.event], d.used)
    else ParseCluster(os, elem[1..], following)
  }

  /**
   * The whole command line, left to right, as each ordering mode promises to read it: permuting passes
   * over non-options, requiring order stops at the first one, returning in order delivers each with code 1.
   */
  function ParseArgs(cfg: Config, os: string, args: seq<string>): (p: Parse)
    ensures |p.opts| + |p.nons| == |args|
    decreases |args|
  {
    if args == [] then Parse([], [], [])
    else if args[0] == TERMINATOR then Parse([], [TERMINATOR], args[1..])
    else if NonOption(args[0]) then
      if cfg.ordering == RequireOrder then Parse([], [], args)
      else
        var p := ParseArgs(cfg, os, args[1..]);
        if cfg.ordering == Permute then p.(nons := [args[0]] + p.nons)
        else Parse([Plain(1, Some(args[0]))] + p.events, [args[0]] + p.opts, p.nons)
    else
      var (evs, used) := ParseElement(os, cfg.longopts, args[0], Head(args[1..]));
      var p := ParseArgs(cfg, os, args[used..]);
      Parse(evs + p.events, args[..used] + p.opts, p.nons)
  }

  // ----- the resumable scan: one call at a time -----

  /** Where a scan stands: the next argument, the text left in the current one, and the elements passed so far. */
  datatype Cursor = Cursor(i: nat, next: Option<string>, opts: seq<string>, nons: seq<string>) {
    predicate InElement() { next.Some? && next.value != "" }
  }

  ghost predicate CursorValid(cfg: Config, args: seq<string>, base: nat, s: Cursor) {
    && base <= s.i <= |args|
    && |s.opts| + |s.nons| == s.i - base
    && (cfg.ordering != Permute ==> s.nons == [])
    && (s.InElement() ==>
          s.i < |args| && !NonOption(args[s.i]) && !IsLong(cfg.longopts, args[s.i]) && |s.next.value| < |args[s.i]|)
  }

  datatype Outcome = Stop(cursor: Cursor) | Emit(event: Event, cursor: Cursor)

  function SkipNonOptions(args: seq<string>, i: nat): (j: nat)
    requires i <= |args|
    ensures i <= j <= |args|
    ensures forall k :: i <= k < j ==> NonOption(args[k])
    ensures j < |args| ==> !NonOption(args[j])
    decreases |args| - i
  {
    if i < |args| && NonOption(args[i]) then SkipNonOptions(args, i + 1) else i
  }

  /** Decode the option at the cursor, which stands inside an option element. */
  function DecodeAt(cfg: Config, os: string, args: seq<string>, s: Cursor): (r: Outcome)
    requires s.i < |args| && s.InElement()
    ensures r.Emit? && r.cursor.i <= |args|
  {
    var following := Head(args[s.i + 1..]);
    var d := if IsLong(cfg.longopts, args[s.i])
             then DecodeLong(os, cfg.longopts.value, s.next.value, following)
             else DecodeShort(os, s.next.value, following);
    Emit(d.event, Cursor(s.i + d.used, d.rest, s.opts + args[s.i..s.i + d.used], s.nons))
  }

  function AfterDashes(longopts: Option<seq<LongOpt>>, elem: string): (text: string)
    requires !NonOption(elem)
    ensures elem != TERMINATOR ==> text != ""
  {
    if IsLong(longopts, elem) then elem[2..] else elem[1..]
  }

  /** The cursor once the non-options that permuting skips are behind it. */
  function Reached(cfg: Config, args: seq<string>, s: Cursor): (t: Cursor)
    requires s.i <= |args|
    ensures s.i <= t.i <= |args| && t.next == s.next && t.opts == s.opts
  {
    var j := if cfg.ordering == Permute then SkipNonOptions(args, s.i) else s.i;
    s.(i := j, nons := s.nons + args[s.i..j])
  }

  /** One call of `getopt`. */
  function Call(cfg: Config, os: string, args: seq<string>, s: Cursor): (r: Outcome)
    requires s.i <= |args|
    requires s.InElement() ==> s.i < |args|
  {
    if s.InElement() then DecodeAt(cfg, os, args, s)
    else
      var t := Reached(cfg, args, s);
      if t.i == |args| then Stop(t)
      else if args[t.i] == TERMINATOR then
        Stop(Cursor(|args|, t.next, t.opts + [TERMINATOR], t.nons + args[t.i + 1..]))
      else if NonOption(args[t.i]) then
        if cfg.ordering == RequireOrder then Stop(t.(nons := t.nons + args[t.i..]))
        else Emit(Plain(1, Some(args[t.i])), Cursor(t.i + 1, t.next, t.opts + args[t.i..t.i + 1], t.nons))
      else DecodeAt(cfg, os, args, t.(next := Some(AfterDashes(cfg.longopts, args[t.i]))))
  }

  /** How much is left to scan; every call that returns an option makes it smaller. */
  ghost function Measure(args: seq<string>, s: Cursor): (int, int) {
    (|args| - s.i,
     if s.InElement() then |s.next.value| else if s.i < |args| then |args[s.i]| else 0)
  }

  lemma CallKeepsCursor(cfg: Config, os: string, args: seq<string>, base: nat, s: Cursor)
    requires CursorValid(cfg, args, base, s)
    ensures Call(cfg, os, args, s).Emit? ==> CursorValid(cfg, args, base, Call(cfg, os, args, s).cursor)
    ensures Call(cfg, os, args, s).Stop? ==>
              var f := Call(cfg, os, args, s).cursor;
              |f.opts| + |f.nons| == |args| - base
  {
  }

  lemma CallMakesProgress(cfg: Config, os: string, args: seq<string>, base: nat, s: Cursor)
    requires CursorValid(cfg, args, base, s) && Call(cfg, os, args, s).Emit?
    ensures var m, m' := Measure(args, s), Measure(args, Call(cfg, os, args, s).cursor);
            m'.0 < m.0 || (m'.0 == m.0 && m'.1 < m.1)
  {
  }

  /** What the simple parse makes of everything the cursor has not passed yet, added to what it has. */
  ghost function Remaining(cfg: Config, os: string, args: seq<string>, s: Cursor): Parse
    requires s.i <= |args| && (s.InElement() ==> s.i < |args|)
  {
    if s.InElement() then
      var (evs, used) := ParseCluster(os, s.next.value, Head(args[s.i + 1..]));
      var p := ParseArgs(cfg, os, args[s.i + used..]);
      Parse(evs + p.events, s.opts + args[s.i..s.i + used] + p.opts, s.nons + p.nons)
    else
      var p := ParseArgs(cfg, os, args[s.i..]);
      Parse(p.events, s.opts + p.opts, s.nons + p.nons)
  }

  lemma {:induction false} SkippingIsParsing(cfg: Config, os: string, args: seq<string>, i: nat)
    requires cfg.ordering == Permute && i <= |args|
    ensures var j := SkipNonOptions(args, i);
            var p, q := ParseArgs(cfg, os, args[i..]), ParseArgs(cfg, os, args[j..]);
            p == Parse(q.events, q.opts, args[i..j] + q.nons)
    decreases |args| - i
  {
    hide ParseArgs;
    var j := SkipNonOptions(args, i);
    var q := ParseArgs(cfg, os, args[j..]);
    if i == j {
      assert args[i..j] + q.nons == q.nons;
    } else {
      var rest := args[i + 1..];
      SkippingIsParsing(cfg, os, args, i + 1);
      var p := ParseArgs(cfg, os, rest);
      ParseNonOption(cfg, os, args[i..], args[i], rest);
      assert [args[i]] + (args[i + 1..j] + q.nons) == args[i..j] + q.nons;
    }
  }

  lemma ParseNonOption(cfg: Config, os: string, all: seq<string>, arg: string, rest: seq<string>)
    requires cfg.ordering == Permute && NonOption(arg) && |all| > 0 && all[0] == arg && all[1..] == rest
    ensures var p := ParseArgs(cfg, os, rest);
            ParseArgs(cfg, os, all) == Parse(p.events, p.opts, [arg] + p.nons)
  {
  }

  /** The outcome is the first event of the parse, and the rest is still to come; or the parse is exhausted. */
  ghost predicate TakesNext(cfg: Config, os: string, args: seq<string>, r: Outcome, p: Parse) {
    match r
    case Stop(f) => p == Parse([], f.opts, f.nons)
    case Emit(e, s') =>
      s'.i <= |args| && (s'.InElement() ==> s'.i < |args|) &&
      var q := Remaining(cfg, os, args, s');
      p == Parse([e] + q.events, q.opts, q.nons)
  }

  lemma DecodingIsParsing(cfg: Config, os: string, args: seq<string>, base: nat, s: Cursor)
    requires CursorValid(cfg, args, base, s) && s.InElement()
    ensures TakesNext(cfg, os, args, DecodeAt(cfg, os, args, s), Remaining(cfg, os, args, s))
  {
    hide ParseArgs, DecodeShort;
    var following := Head(args[s.i + 1..]);
    var d := DecodeShort(os, s.next.value, following);
    var r := DecodeAt(cfg, os, args, s);
    assert r == Emit(d.event, Cursor(s.i + d.used, d.rest, s.opts + args[s.i..s.i + d.used], s.nons));
    if d.used == 0 {
      assert s.opts + args[s.i..s.i] == s.opts;
      var (evs, used) := ParseCluster(os, s.next.value[1..], following);
      var tail := ParseArgs(cfg, os, args[s.i + used..]);
      assert ([d.event] + evs) + tail.events == [d.event] + (evs + tail.events);
    } else {
      assert !r.cursor.InElement();
    }
  }

  /** In each ordering mode a call takes exactly the next event off the simple parse, or finds it exhausted. */
  lemma CallIsParsing(cfg: Config, os: string, args: seq<string>, base: nat, s: Cursor)
    requires CursorValid(cfg, args, base, s)
    ensures TakesNext(cfg, os, args, Call(cfg, os, args, s), Remaining(cfg, os, args, s))
  {
    CallKeepsCursor(cfg, os, args, base, s);
    if s.InElement() {
      DecodingIsParsing(cfg, os, args, base, s);
    } else {
      hide ParseArgs, DecodeAt, SkipNonOptions;
      var t := Reached(cfg, args, s);
      ReachingIsParsing(cfg, os, args, s);
      if t.i == |args| || args[t.i] == TERMINATOR {
        ParseEnds(cfg, os, args, t.i);
      } else if NonOption(args[t.i]) {
        NonOptionIsParsing(cfg, os, args, s);
      } else {
        CallEntersElement(cfg, os, args, base, s, t.i, t.nons);
      }
    }
  }

  lemma NonOptionIsParsing(cfg: Config, os: string, args: seq<string>, s: Cursor)
    requires cfg.ordering != Permute && s.i < |args| && !s.InElement()
    requires NonOption(args[s.i]) && args[s.i] != TERMINATOR
    ensures TakesNext(cfg, os, args, Call(cfg, os, args, s), Remaining(cfg, os, args, s))
  {
    hide ParseArgs, DecodeAt, SkipNonOptions;
    assert s.nons + args[s.i..s.i] == s.nons;
    ParseStopsOrDelivers(cfg, os, args, s.i);
    var q := ParseArgs(cfg, os, args[s.i + 1..]);
    assert args[s.i..s.i + 1] == [args[s.i]];
    assert s.opts + ([args[s.i]] + q.opts) == (s.opts + [args[s.i]]) + q.opts;
  }

  lemma ReachingIsParsing(cfg: Config, os: string, args: seq<string>, s: Cursor)
    requires s.i <= |args| && !s.InElement()
    ensures var t := Reached(cfg, args, s);
            var q := ParseArgs(cfg, os, args[t.i..]);
            Remaining(cfg, os, args, s) == Parse(q.events, t.opts + q.opts, t.nons + q.nons)
    ensures var t := Reached(cfg, args, s);
            && t.nons == s.nons + args[s.i..t.i]
            && (if cfg.ordering == Permute then t.i < |args| ==> !NonOption(args[t.i]) else t == s)
  {
    hide ParseArgs;
    var t := Reached(cfg, args, s);
    if cfg.ordering == Permute {
      SkippingIsParsing(cfg, os, args, s.i);
    } else {
      assert args[s.i..s.i] == [] && s.nons + [] == s.nons;
    }
    var q := ParseArgs(cfg, os, args[t.i..]);
    assert s.nons + (args[s.i..t.i] + q.nons) == t.nons + q.nons;
  }

  /** At a non-option, requiring order ends the parse, and returning in order delivers it. */
  lemma ParseStopsOrDelivers(cfg: Config, os: string, args: seq<string>, i: nat)
    requires cfg.ordering != Permute && i < |args| && NonOption(args[i]) && args[i] != TERMINATOR
    ensures var p, q := ParseArgs(cfg, os, args[i..]), ParseArgs(cfg, os, args[i + 1..]);
            p == if cfg.ordering == RequireOrder then Parse([], [], args[i..])
                 else Parse([Plain(1, Some(args[i]))] + q.events, [args[i]] + q.opts, q.nons)
  {
    assert args[i..][0] == args[i] && args[i..][1..] == args[i + 1..];
  }

  lemma ParseEnds(cfg: Config, os: string, args: seq<string>, i: nat)
    requires i == |args| || (i < |args| && args[i] == TERMINATOR)
    ensures ParseArgs(cfg, os, args[i..])
         == if i == |args| then Parse([], [], []) else Parse([], [TERMINATOR], args[i + 1..])
  {
    if i < |args| {
      assert args[i..][0] == TERMINATOR && args[i..][1..] == args[i + 1..];
    }
  }

  /** What decoding the option element at `j` from its start makes of the parse from there on. */
  ghost predicate EntersElement(cfg: Config, os: string, args: seq<string>, s: Cursor, j: nat, nons: seq<string>)
    requires j < |args| && !NonOption(args[j]) && args[j] != TERMINATOR
  {
    var r := DecodeAt(cfg, os, args, Cursor(j, Some(AfterDashes(cfg.longopts, args[j])), s.opts, nons));
    var p := ParseArgs(cfg, os, args[j..]);
    TakesNext(cfg, os, args, r, Parse(p.events, s.opts + p.opts, nons + p.nons))
  }

  lemma CallEntersElement(cfg: Config, os: string, args: seq<string>, base: nat, s: Cursor, j: nat, nons: seq<string>)
    requires CursorValid(cfg, args, base, s) && !s.InElement() && (cfg.ordering != Permute ==> j == s.i)
    requires s.i <= j < |args| && !NonOption(args[j]) && args[j] != TERMINATOR && nons == s.nons + args[s.i..j]
    ensures EntersElement(cfg, os, args, s, j, nons)
  {
    hide EntersElement;
    if IsLong(cfg.longopts, args[j]) {
      EntersLongOption(cfg, os, args, s, j, nons);
    } else {
      EntersCluster(cfg, os, args, base, s, j, nons);
    }
  }

  lemma EntersLongOption(cfg: Config, os: string, args: seq<string>, s: Cursor, j: nat, nons: seq<string>)
    requires j < |args| && !NonOption(args[j]) && args[j] != TERMINATOR && IsLong(cfg.longopts, args[j])
    ensures EntersElement(cfg, os, args, s, j, nons)
  {
    hide ParseArgs, DecodeLong;
    UnfoldOption(cfg, os, args, j);
    var used := DecodeLong(os, cfg.longopts.value, args[j][2..], Head(args[j + 1..])).used;
    var p := ParseArgs(cfg, os, args[j + used..]);
    assert s.opts + (args[j..j + used] + p.opts) == s.opts + args[j..j + used] + p.opts;
  }

  lemma EntersCluster(cfg: Config, os: string, args: seq<string>, base: nat, s: Cursor, j: nat, nons: seq<string>)
    requires CursorValid(cfg, args, base, s) && !s.InElement() && (cfg.ordering != Permute ==> j == s.i)
    requires s.i <= j < |args| && !NonOption(args[j]) && args[j] != TERMINATOR && nons == s.nons + args[s.i..j]
    requires !IsLong(cfg.longopts, args[j])
    ensures EntersElement(cfg, os, args, s, j, nons)
  {
    hide ParseArgs, ParseCluster, DecodeAt;
    var t := Cursor(j, Some(AfterDashes(cfg.longopts, args[j])), s.opts, nons);
    UnfoldOption(cfg, os, args, j);
    assert CursorValid(cfg, args, base, t);
    DecodingIsParsing(cfg, os, args, base, t);
    var used := ParseCluster(os, t.next.value, Head(args[j + 1..])).1;
    var p := ParseArgs(cfg, os, args[j + used..]);
    assert s.opts + (args[j..j + used] + p.opts) == s.opts + args[j..j + used] + p.opts;
  }

  lemma UnfoldOption(cfg: Config, os: string, args: seq<string>, j: nat)
    requires j < |args| && !NonOption(args[j]) && args[j] != TERMINATOR
    ensures var (evs, used) := ParseElement(os, cfg.longopts, args[j], Head(args[j + 1..]));
            j + used <= |args| &&
            var p := ParseArgs(cfg, os, args[j + used..]);
            ParseArgs(cfg, os, args[j..]) == Parse(evs + p.events, args[j..j + used] + p.opts, p.nons)
  {
    hide ParseElement;
    assert args[j..][1..] == args[j + 1..] && args[j..][0] == args[j];
    var (evs, used) := ParseElement(os, cfg.longopts, args[j], Head(args[j + 1..]));
    assert args[j..][used..] == args[j + used..] && args[j..][..used] == args[j..j + used];
  }
}
