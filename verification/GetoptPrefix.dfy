/**
 * The ordering prefix of an option string, `+` or `-`, is dropped by the first call only: later calls
 * read it as the first option character. When that can be noticed, and when it cannot.
 */
module GetoptPrefix {
  import opened Common
  import opened GetoptLookup
  import opened GetoptScan
  import opened GetoptLaws
  import opened Getopt

  predicate HasPrefix(os: string) { os != "" && (os[0] == '+' || os[0] == '-') }

  // ----- two command lines on which it is noticed -----

  /** A call at an element of one option character. */
  lemma SingleOption(cfg: Config, os: string, args: seq<string>, s: Cursor, c: char)
    requires s.i < |args| && !s.InElement() && args[s.i] == "-" + [c] && c != '-'
    ensures var d := DecodeShort(os, [c], Head(args[s.i + 1..]));
            && s.i + d.used <= |args|
            && Call(cfg, os, args, s) ==
               Emit(d.event, Cursor(s.i + d.used, d.rest, s.opts + args[s.i..s.i + d.used], s.nons))
  {
    hide DecodeShort;
    var elem := "-" + [c];
    assert elem[1] == c && elem[1..] == [c];
    assert args[s.i..s.i] == [] && s.nons + [] == s.nons;
    assert SkipNonOptions(args, s.i) == s.i;
  }

  /** `prog -a -+` with "+a": the second call takes `+` for a declared option. */
  lemma PlusIsAnOptionLater()
    ensures var cfg, args := Config(RequireOrder, None), ["prog", "-a", "-+"];
            var one := Call(cfg, EffectiveOptions("+a"), args, Start(1));
            && one == Emit(Plain('a' as int, None), Cursor(2, Some(""), ["-a"], []))
            && Call(cfg, "+a", args, one.cursor).event == Plain('+' as int, None)
            && Call(cfg, "a", args, one.cursor).event == Failing('?' as int, '+' as int)
  {
    hide Call;
    var cfg, args := Config(RequireOrder, None), ["prog", "-a", "-+"];
    assert "+a"[1..] == "a" && args[1..2] == ["-a"] && [] + ["-a"] == ["-a"] && "a"[1..] == "" && "+"[1..] == "";
    IndexAt("a", 'a', 0);
    IndexAt("+a", '+', 0);
    IndexAt("a", '+', 1);
    SingleOption(cfg, "a", args, Start(1), 'a');
    var one := Cursor(2, Some(""), ["-a"], []);
    SingleOption(cfg, "+a", args, one, '+');
    SingleOption(cfg, "a", args, one, '+');
  }

  /** `prog -x -b` with "+:b:": the second call reports the missing argument as `?` and not as `:`. */
  lemma ColonIsMissedLater()
    ensures var cfg, args := Config(RequireOrder, None), ["prog", "-x", "-b"];
            var one := Call(cfg, EffectiveOptions("+:b:"), args, Start(1));
            && one == Emit(Failing('?' as int, 'x' as int), Cursor(2, Some(""), ["-x"], []))
            && Call(cfg, "+:b:", args, one.cursor).event == Failing('?' as int, 'b' as int)
            && Call(cfg, ":b:", args, one.cursor).event == Failing(':' as int, 'b' as int)
  {
    hide Call, IndexOf;
    var cfg, args := Config(RequireOrder, None), ["prog", "-x", "-b"];
    assert "+:b:"[1..] == ":b:" && args[1..2] == ["-x"] && [] + ["-x"] == ["-x"] && args[3..] == [];
    assert "x"[1..] == "" && "b"[1..] == "";
    IndexAt("+:b:", 'b', 2);
    IndexAt(":b:", 'b', 1);
    IndexAt(":b:", 'x', 3);
    SingleOption(cfg, ":b:", args, Start(1), 'x');
    var one := Cursor(2, Some(""), ["-x"], []);
    SingleOption(cfg, "+:b:", args, one, 'b');
    SingleOption(cfg, ":b:", args, one, 'b');
  }

  lemma IndexAt(s: string, c: char, k: nat)
    requires k <= |s| && (k < |s| ==> s[k] == c) && forall j :: 0 <= j < k ==> s[j] != c
    ensures IndexOf(s, c) == k
  {
  }

  // ----- one option: exactly when the prefix makes no difference -----

  predicate TakesArgument(k: Kind) { k == Required || k == Optional }

  /** The option string without its prefix asks for `:` where an argument is missing. */
  predicate AsksForColon(os: string) { |os| > 1 && os[1] == ':' }

  predicate ShortAlike(os: string, text: string, following: Option<string>)
    requires HasPrefix(os) && text != ""
  {
    var k, k' := KindOf(os, text[0]), KindOf(os[1..], text[0]);
    && (k == k' || (|text| > 1 && TakesArgument(k) && TakesArgument(k')))
    && !(k == Required && |text| == 1 && following == None && AsksForColon(os))
  }

  lemma ShortAlikeIff(os: string, text: string, following: Option<string>)
    requires HasPrefix(os) && text != ""
    ensures DecodeShort(os, text, following) == DecodeShort(os[1..], text, following)
            <==> ShortAlike(os, text, following)
  {
    hide KindOf;
  }

  /** A long option that requires an argument stands last and has none. */
  predicate LacksArgument(opts: seq<LongOpt>, word: string, following: Option<string>) {
    && '=' !in word && following == None
    && LookUp(opts, word, false).Found? && opts[LookUp(opts, word, false).index].hasArg == 1
  }

  lemma LongAlikeIff(os: string, opts: seq<LongOpt>, word: string, following: Option<string>)
    requires HasPrefix(os)
    ensures DecodeLong(os, opts, word, following) == DecodeLong(os[1..], opts, word, following)
       <==> !(LacksArgument(opts, word, following) && AsksForColon(os))
  {
    hide LookUp;
    var end := IndexOf(word, '=');
    if end == |word| { assert word[..end] == word; } else { assert word[end] == '='; }
  }

  /** The cursor at which a call decodes an option, if it gets that far. */
  function DecodingCursor(cfg: Config, args: seq<string>, s: Cursor): (r: Option<Cursor>)
    requires s.i <= |args| && (s.InElement() ==> s.i < |args|)
    ensures r.Some? ==> r.value.i < |args| && r.value.InElement()
  {
    if s.InElement() then Some(s)
    else
      var t := Reached(cfg, args, s);
      if t.i < |args| && !NonOption(args[t.i]) && args[t.i] != TERMINATOR
      then Some(t.(next := Some(AfterDashes(cfg.longopts, args[t.i]))))
      else None
  }

  /** The option at the cursor reads the same with and without the prefix. */
  predicate OptionAlike(cfg: Config, os: string, args: seq<string>, s: Cursor)
    requires HasPrefix(os) && s.i < |args| && s.InElement()
  {
    var following := Head(args[s.i + 1..]);
    if IsLong(cfg.longopts, args[s.i]) then
      !(LacksArgument(cfg.longopts.value, s.next.value, following) && AsksForColon(os))
    else ShortAlike(os, s.next.value, following)
  }

  lemma DecodingAlikeIff(cfg: Config, os: string, args: seq<string>, s: Cursor)
    requires HasPrefix(os) && s.i < |args| && s.InElement()
    ensures DecodeAt(cfg, os, args, s) == DecodeAt(cfg, os[1..], args, s) <==> OptionAlike(cfg, os, args, s)
  {
    hide DecodeLong, DecodeShort, ShortAlike, LacksArgument;
    var following := Head(args[s.i + 1..]);
    if IsLong(cfg.longopts, args[s.i]) {
      LongAlikeIff(os, cfg.longopts.value, s.next.value, following);
    } else {
      ShortAlikeIff(os, s.next.value, following);
    }
  }

  /** A call does the same with and without the prefix exactly if the option it decodes reads the same. */
  lemma CallAlikeIff(cfg: Config, os: string, args: seq<string>, s: Cursor)
    requires HasPrefix(os) && s.i <= |args| && (s.InElement() ==> s.i < |args|)
    ensures Call(cfg, os, args, s) == Call(cfg, os[1..], args, s)
       <==> var t := DecodingCursor(cfg, args, s); t.Some? ==> OptionAlike(cfg, os, args, t.value)
  {
    hide DecodeAt, OptionAlike, Reached, AfterDashes;
    var t := DecodingCursor(cfg, args, s);
    if t.Some? { DecodingAlikeIff(cfg, os, args, t.value); }
  }

  // ----- whole runs: exactly when no command line can notice the prefix -----

  /** Some word chooses a long option that requires an argument. */
  ghost predicate SomeLongRequires(longopts: Option<seq<LongOpt>>) {
    longopts.Some? && exists word :: word != "" && LacksArgument(longopts.value, word, None)
  }

  ghost predicate Harmless(os: string, longopts: Option<seq<LongOpt>>)
    requires HasPrefix(os)
  {
    && KindOf(os, os[0]) == KindOf(os[1..], os[0])
    && (AsksForColon(os) ==> !(exists c :: KindOf(os, c) == Required) && !SomeLongRequires(longopts))
  }

  /** Only the prefix character itself can be classified otherwise. */
  lemma OtherKinds(os: string, c: char)
    requires HasPrefix(os) && c != os[0]
    ensures KindOf(os, c) == KindOf(os[1..], c)
  {
  }

  lemma HarmlessShort(os: string, longopts: Option<seq<LongOpt>>, text: string, following: Option<string>)
    requires HasPrefix(os) && Harmless(os, longopts) && text != ""
    ensures DecodeShort(os, text, following) == DecodeShort(os[1..], text, following)
  {
    hide KindOf, DecodeShort;
    if text[0] != os[0] { OtherKinds(os, text[0]); }
    ShortAlikeIff(os, text, following);
  }

  lemma HarmlessLong(os: string, longopts: Option<seq<LongOpt>>, word: string, following: Option<string>)
    requires HasPrefix(os) && Harmless(os, longopts) && longopts.Some? && word != ""
    ensures DecodeLong(os, longopts.value, word, following) == DecodeLong(os[1..], longopts.value, word, following)
  {
    hide KindOf, DecodeLong, LookUp;
    LongAlikeIff(os, longopts.value, word, following);
    assert LacksArgument(longopts.value, word, following) ==> SomeLongRequires(longopts);
  }

  lemma {:induction false} HarmlessCluster(os: string, longopts: Option<seq<LongOpt>>, text: string,
                                              following: Option<string>)
    requires HasPrefix(os) && Harmless(os, longopts) && text != ""
    ensures ParseCluster(os, text, following) == ParseCluster(os[1..], text, following)
  {
    hide Harmless, DecodeShort;
    HarmlessShort(os, longopts, text, following);
    if DecodeShort(os, text, following).used == 0 { HarmlessCluster(os, longopts, text[1..], following); }
  }

  lemma HarmlessElement(os: string, longopts: Option<seq<LongOpt>>, elem: string, following: Option<string>)
    requires HasPrefix(os) && Harmless(os, longopts) && !NonOption(elem) && elem != TERMINATOR
    ensures ParseElement(os, longopts, elem, following) == ParseElement(os[1..], longopts, elem, following)
  {
    hide Harmless, DecodeLong, ParseCluster;
    if IsLong(longopts, elem) {
      assert elem == "--" + elem[2..];
      HarmlessLong(os, longopts, elem[2..], following);
    } else {
      HarmlessCluster(os, longopts, elem[1..], following);
    }
  }

  lemma {:induction false} HarmlessArgs(cfg: Config, os: string, args: seq<string>)
    requires HasPrefix(os) && Harmless(os, cfg.longopts)
    ensures ParseArgs(cfg, os, args) == ParseArgs(cfg, os[1..], args)
    decreases |args|
  {
    hide Harmless, ParseElement;
    if args == [] || args[0] == TERMINATOR {
    } else if NonOption(args[0]) {
      if cfg.ordering != RequireOrder { HarmlessArgs(cfg, os, args[1..]); }
    } else {
      HarmlessElement(os, cfg.longopts, args[0], Head(args[1..]));
      HarmlessArgs(cfg, os, args[ParseElement(os, cfg.longopts, args[0], Head(args[1..])).1..]);
    }
  }

  lemma HarmlessRest(cfg: Config, os: string, args: seq<string>, s: Cursor)
    requires HasPrefix(os) && Harmless(os, cfg.longopts) && s.i <= |args| && (s.InElement() ==> s.i < |args|)
    ensures Remaining(cfg, os, args, s) == Remaining(cfg, os[1..], args, s)
  {
    hide Harmless, ParseCluster, ParseArgs;
    if s.InElement() {
      HarmlessCluster(os, cfg.longopts, s.next.value, Head(args[s.i + 1..]));
      var used := ParseCluster(os, s.next.value, Head(args[s.i + 1..])).1;
      HarmlessArgs(cfg, os, args[s.i + used..]);
    } else {
      HarmlessArgs(cfg, os, args[s.i..]);
    }
  }

  /** What a run promises on a command line, and what the option string without its prefix promises. */
  ghost predicate Unnoticed(cfg: Config, os: string, args: seq<string>)
    requires HasPrefix(os) && |args| > 0
  {
    Promised(cfg, os[1..], os, args, 1, Start(1)) == ParseArgs(cfg, os[1..], args[1..])
  }

  lemma HarmlessIsUnnoticed(cfg: Config, os: string, args: seq<string>)
    requires HasPrefix(os) && Harmless(os, cfg.longopts) && |args| > 0
    ensures Unnoticed(cfg, os, args)
  {
    hide Harmless, Remaining, ParseArgs, Call;
    PromisedIsParse(cfg, os[1..], args, 1);
    CallKeepsCursor(cfg, os[1..], args, 1, Start(1));
    var r := Call(cfg, os[1..], args, Start(1));
    if r.Emit? { HarmlessRest(cfg, os, args, r.cursor); }
  }

  /** The second event of a command line that begins with `-:` is read with the prefix. */
  lemma SecondEvent(cfg: Config, os: string, text: string)
    requires HasPrefix(os) && text != "" && DecodeShort(os, text, None).event != DecodeShort(os[1..], text, None).event
    ensures !Unnoticed(cfg, os, ["prog", "-:" + text])
  {
    hide DecodeShort;
    var elem := "-:" + text;
    var args := ["prog", elem];
    var os' := os[1..];
    assert elem[1..] == ":" + text && (":" + text)[1..] == text && elem[1] == ':';
    ColonIsUnknown(os', ":" + text);
    var e := Failing('?' as int, CharCode(':'));
    var one := Cursor(1, Some(text), [], []);
    FirstCall(cfg, os', text);
    assert Head(args[2..]) == None && args[1..] == [elem];
    var later, promised := ParseCluster(os, text, None), ParseCluster(os', text, None);
    var run := Promised(cfg, os', os, args, 1, Start(1));
    assert run.events == [e] + Remaining(cfg, os, args, one).events;
    var simple := ParseArgs(cfg, os', [elem]);
    ParseOption(cfg, os', elem, []);
    assert [elem] + [] == [elem];
    assert ParseElement(os', cfg.longopts, elem, None) == ParseCluster(os', ":" + text, None);
    assert simple.events[1] == promised.0[0] && run.events[1] == later.0[0];
  }

  lemma ColonIsUnknown(os: string, text: string)
    requires |text| > 1 && text[0] == ':'
    ensures DecodeShort(os, text, None) == Decoded(Failing('?' as int, CharCode(':')), 0, Some(text[1..]))
  {
  }

  lemma FirstCall(cfg: Config, os: string, text: string)
    requires text != ""
    ensures Call(cfg, os, ["prog", "-:" + text], Start(1))
         == Emit(Failing('?' as int, CharCode(':')), Cursor(1, Some(text), [], []))
  {
    hide DecodeShort;
    var elem := "-:" + text;
    var args := ["prog", elem];
    assert elem[1..] == ":" + text && (":" + text)[1..] == text && elem[1] == ':';
    ColonIsUnknown(os, ":" + text);
    assert args[1..1] == [] && [] + args[1..1] == [] && Head(args[2..]) == None;
  }

  /** A character that the prefix makes another kind of option is noticed. */
  lemma OtherKindNoticed(cfg: Config, os: string)
    requires HasPrefix(os) && KindOf(os, os[0]) != KindOf(os[1..], os[0])
    ensures exists args :: |args| > 0 && !Unnoticed(cfg, os, args)
  {
    hide KindOf, Unnoticed;
    var k, k' := KindOf(os, os[0]), KindOf(os[1..], os[0]);
    var text := if TakesArgument(k) && TakesArgument(k') then [os[0]] else [os[0]] + "x";
    SecondEvent(cfg, os, text);
  }

  /** So is an option without its argument, where the option string asks for a colon. */
  lemma ColonNoticed(cfg: Config, os: string, c: char)
    requires HasPrefix(os) && AsksForColon(os) && KindOf(os, c) == Required && KindOf(os[1..], c) == Required
    ensures exists args :: |args| > 0 && !Unnoticed(cfg, os, args)
  {
    hide KindOf, Unnoticed;
    SecondEvent(cfg, os, [c]);
  }

  lemma LongColonNoticed(cfg: Config, os: string, word: string)
    requires HasPrefix(os) && AsksForColon(os) && cfg.longopts.Some?
    requires word != "" && LacksArgument(cfg.longopts.value, word, None)
    ensures !Unnoticed(cfg, os, ["prog", "-:", "--" + word])
  {
    hide LookUp, ParseArgs, Call, DecodeLong, DecodeShort;
    var elem := "--" + word;
    var args := ["prog", "-:", elem];
    var os' := os[1..];
    var one := Cursor(2, Some(""), ["-:"], []);
    assert elem[2..] == word && "-:"[1..] == ":";
    assert args[1..2] == ["-:"] && [] + ["-:"] == ["-:"] && args[2..] == [elem] && args[1..] == ["-:", elem];
    SingleOption(cfg, os', args, Start(1), ':');
    LoneColon(os', Some(elem));
    ParseOption(cfg, os, elem, []);
    ParseOption(cfg, os', elem, []);
    ParseOption(cfg, os', "-:", [elem]);
    assert [elem] + [] == [elem] && ["-:"] + [elem] == ["-:", elem] && (["-:"] + [elem])[1..] == [elem];
    LongAlikeIff(os, cfg.longopts.value, word, None);
    LongEvents(os, cfg.longopts.value, word);
    var run := Promised(cfg, os', os, args, 1, Start(1));
    assert run.events[1] == DecodeLong(os, cfg.longopts.value, word, None).event;
    assert ParseArgs(cfg, os', args[1..]).events[1] == DecodeLong(os', cfg.longopts.value, word, None).event;
  }

  lemma LoneColon(os: string, following: Option<string>)
    ensures DecodeShort(os, ":", following) == Decoded(Failing('?' as int, CharCode(':')), 1, Some(""))
    ensures ParseCluster(os, ":", following) == ([Failing('?' as int, CharCode(':'))], 1)
  {
    assert ":"[1..] == "";
  }

  lemma LongEvents(os: string, opts: seq<LongOpt>, word: string)
    requires HasPrefix(os) && AsksForColon(os) && LacksArgument(opts, word, None)
    ensures DecodeLong(os, opts, word, None).event != DecodeLong(os[1..], opts, word, None).event
  {
    hide LookUp;
    assert word[..IndexOf(word, '=')] == word;
  }

  /**
   * On every command line a run with a prefixed option string keeps the promise of the string without
   * the prefix, exactly if the prefix character is classified the same without it and, where a colon
   * follows the prefix, no option requires an argument.
   */
  lemma PrefixIsHarmlessIff(cfg: Config, os: string)
    requires HasPrefix(os)
    ensures Harmless(os, cfg.longopts) <==> forall args | |args| > 0 :: Unnoticed(cfg, os, args)
  {
    hide Unnoticed, KindOf;
    if Harmless(os, cfg.longopts) {
      forall args | |args| > 0 ensures Unnoticed(cfg, os, args) { HarmlessIsUnnoticed(cfg, os, args); }
    } else if KindOf(os, os[0]) != KindOf(os[1..], os[0]) {
      OtherKindNoticed(cfg, os);
    } else if c :| KindOf(os, c) == Required {
      if c != os[0] { OtherKinds(os, c); }
      ColonNoticed(cfg, os, c);
    } else {
      var word :| word != "" && LacksArgument(cfg.longopts.value, word, None);
      LongColonNoticed(cfg, os, word);
    }
  }
}
