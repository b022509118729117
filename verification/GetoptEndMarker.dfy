/** When a caller's loop, which ends at the first result of -1, reads the whole command line. */
module GetoptEndMarker {
  import opened Common
  import opened GetoptLookup
  import opened GetoptScan
  import opened GetoptLaws

  /** Some word on the command line chooses the `i`-th long option and is accepted. */
  ghost predicate Accepted(opts: seq<LongOpt>, word: string, i: nat) {
    && '=' !in word && LookUp(opts, word, false) == Found(i)
    && i < |opts| && (word == "" ==> opts[i].hasArg != 0)   // `--` alone ends the options, `--=x` gives an argument
  }

  ghost predicate Reachable(opts: seq<LongOpt>, i: nat) {
    exists word :: Accepted(opts, word, i)
  }

  /** No option that a command line can ask for has the code -1. */
  ghost predicate NoEndMarker(os: string, longopts: Option<seq<LongOpt>>) {
    && (forall c :: c in os ==> CharCode(c) != -1)
    && (longopts.Some? ==>
          forall i: nat | Reachable(longopts.value, i) :: longopts.value[i].flag.None? ==> longopts.value[i].val != -1)
  }

  ghost predicate NoneMarked(events: seq<Event>) { forall e :: e in events ==> e.code != -1 }

  lemma {:induction false} ClusterHasNoEndMarker(os: string, text: string, following: Option<string>)
    requires text != "" && forall c :: c in os ==> CharCode(c) != -1
    ensures NoneMarked(ParseCluster(os, text, following).0)
  {
    var d := DecodeShort(os, text, following);
    assert KindOf(os, text[0]) != Unknown ==> text[0] in os;
    if d.used == 0 { ClusterHasNoEndMarker(os, text[1..], following); }
  }

  lemma LongHasNoEndMarker(os: string, opts: seq<LongOpt>, word: string, following: Option<string>)
    requires word != "" && NoEndMarker(os, Some(opts))
    ensures DecodeLong(os, opts, word, following).event.code != -1
  {
    hide LookUp;
    var end := IndexOf(word, '=');
    var name := word[..end];
    assert '=' !in name;
    match LookUp(opts, name, false)
    case Found(i) =>
      if end < |word| && opts[i].hasArg == 0 {
      } else {
        assert end == |word| ==> name == word;
        assert Accepted(opts, name, i);
        assert Reachable(opts, i);
      }
    case _ =>
  }

  /** If no code in reach is -1, a caller's loop reads the whole command line. */
  lemma {:induction false} EveryOptionIsSeen(cfg: Config, os: string, args: seq<string>)
    requires NoEndMarker(os, cfg.longopts)
    ensures NoneMarked(ParseArgs(cfg, os, args).events)
    decreases |args|
  {
    hide DecodeLong, ParseCluster, NoEndMarker;
    if args == [] || args[0] == TERMINATOR {
    } else if NonOption(args[0]) {
      EveryOptionIsSeen(cfg, os, args[1..]);
    } else {
      ElementHasNoEndMarker(cfg, os, args[0], Head(args[1..]));
      var used := ParseElement(os, cfg.longopts, args[0], Head(args[1..])).1;
      EveryOptionIsSeen(cfg, os, args[used..]);
    }
  }

  lemma ElementHasNoEndMarker(cfg: Config, os: string, elem: string, following: Option<string>)
    requires NoEndMarker(os, cfg.longopts) && !NonOption(elem) && elem != TERMINATOR
    ensures NoneMarked(ParseElement(os, cfg.longopts, elem, following).0)
  {
    hide DecodeLong, ParseCluster;
    if IsLong(cfg.longopts, elem) {
      assert elem == "--" + elem[2..];
      LongHasNoEndMarker(os, cfg.longopts.value, elem[2..], following);
    } else {
      ClusterHasNoEndMarker(os, elem[1..], following);
    }
  }

  /** A declared character of code -1 cuts a command line short. */
  lemma MarkedCharacter(cfg: Config, os: string, c: char)
    requires c in os && CharCode(c) == -1
    ensures var args := ["-" + [c] + "x"];
            ParseArgs(cfg, os, args).events != [] && ParseArgs(cfg, os, args).events[0].code == -1
  {
    var elem := "-" + [c] + "x";
    assert elem[1..] == [c] + "x" && elem[1] == c && c != '-' && c != ':';
    assert KindOf(os, c) != Unknown;
    assert ParseElement(os, cfg.longopts, elem, None).0[0].code == -1;
    assert [elem][1..] == [];
  }

  /** So does a long option of value -1 that some word resolves to. */
  lemma MarkedLongOption(cfg: Config, os: string, word: string, i: nat)
    requires cfg.longopts.Some? && Accepted(cfg.longopts.value, word, i)
    requires cfg.longopts.value[i].flag.None? && cfg.longopts.value[i].val == -1
    ensures var elem := "--" + word + if cfg.longopts.value[i].hasArg == 0 then "" else "=x";
            var events := ParseArgs(cfg, os, [elem]).events;
            events != [] && events[0].code == -1
  {
    hide LookUp;
    var o := cfg.longopts.value[i];
    var elem := "--" + word + if o.hasArg == 0 then "" else "=x";
    var text := elem[2..];
    assert text == word + if o.hasArg == 0 then "" else "=x";
    NameEnds(text, word);
    assert text[..|word|] == word;
    assert ParseElement(os, cfg.longopts, elem, None).0[0].code == -1;
    assert [elem][1..] == [];
  }

  lemma NameEnds(text: string, word: string)
    requires '=' !in word && (text == word || text == word + "=x")
    ensures IndexOf(text, '=') == |word|
  {
    assert text != word ==> text[|word|] == '=';
  }

  /** A caller's loop reads every command line to its end exactly if no code in reach is -1. */
  lemma EndMarkerIff(cfg: Config, os: string)
    ensures NoEndMarker(os, cfg.longopts) <==> forall args :: NoneMarked(ParseArgs(cfg, os, args).events)
  {
    hide ParseArgs;
    if NoEndMarker(os, cfg.longopts) {
      forall args ensures NoneMarked(ParseArgs(cfg, os, args).events) { EveryOptionIsSeen(cfg, os, args); }
    } else if c :| c in os && CharCode(c) == -1 {
      MarkedCharacter(cfg, os, c);
      assert !NoneMarked(ParseArgs(cfg, os, ["-" + [c] + "x"]).events);
    } else {
      var i: nat :| Reachable(cfg.longopts.value, i) && cfg.longopts.value[i].flag.None?
          && cfg.longopts.value[i].val == -1;
      var word :| Accepted(cfg.longopts.value, word, i);
      MarkedLongOption(cfg, os, word, i);
      var elem := "--" + word + if cfg.longopts.value[i].hasArg == 0 then "" else "=x";
      assert !NoneMarked(ParseArgs(cfg, os, [elem]).events);
    }
  }
}
