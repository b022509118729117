/** Calls of `getopt` after the first -1: they read what the run has left over. */
module GetoptAgain {
  import opened Common
  import opened GetoptScan
  import opened GetoptLaws
  import opened Getopt

  /**
   * A call on an object that rests in front of what is left over is the first step of a new parse of that:
   * it returns that parse's first event, or -1 again, with the same division into used up and left over.
   */
  lemma FurtherCall(cfg: Config, os: string, args: seq<string>, base: nat, i: nat, next: Option<string>)
    requires base <= i <= |args| && !AtLeftovers(args, base, i, next).InElement()
    ensures var p, r := ParseArgs(cfg, os, args[i..]), Call(cfg, os, args, AtLeftovers(args, base, i, next));
            if p.events == [] then r.Stop? && r.cursor.opts == args[base..i] + p.opts && r.cursor.nons == p.nons
            else r.Emit? && r.event == p.events[0]
  {
    hide ParseArgs, Call;
    var s := AtLeftovers(args, base, i, next);
    CallIsParsing(cfg, os, args, base, s);
    var p := ParseArgs(cfg, os, args[i..]);
    assert Remaining(cfg, os, args, s) == Parse(p.events, args[base..i] + p.opts, p.nons) by {
      assert [] + p.nons == p.nons;
    }
  }

  /** Nothing but non-options before the end of the arguments or a terminator, or in front where order is required. */
  predicate NoOptionAhead(cfg: Config, left: seq<string>) {
    var j := if cfg.ordering == Permute then SkipNonOptions(left, 0) else 0;
    j == |left| || left[j] == TERMINATOR || (cfg.ordering == RequireOrder && NonOption(left[j]))
  }

  lemma ClusterHasEvents(os: string, text: string, following: Option<string>)
    requires text != ""
    ensures ParseCluster(os, text, following).0 != []
  {
  }

  /** A parse has no event if and only if no option is ahead. */
  lemma {:induction false} NothingToReadIff(cfg: Config, os: string, left: seq<string>)
    ensures ParseArgs(cfg, os, left).events == [] <==> NoOptionAhead(cfg, left)
    decreases |left|
  {
    if left == [] || left[0] == TERMINATOR {
    } else if NonOption(left[0]) {
      if cfg.ordering == Permute {
        NothingToReadIff(cfg, os, left[1..]);
        SkipShifts(left, 1);
      }
    } else if !IsLong(cfg.longopts, left[0]) {
      ClusterHasEvents(os, left[0][1..], Head(left[1..]));
    }
  }

  lemma {:induction false} SkipShifts(args: seq<string>, i: nat)
    requires 1 <= i <= |args|
    ensures SkipNonOptions(args, i) == 1 + SkipNonOptions(args[1..], i - 1)
    decreases |args| - i
  {
    if i < |args| && NonOption(args[i]) { SkipShifts(args, i + 1); }
  }

  /** Unless a run ends at the terminator, no option is ahead in what it leaves over. */
  lemma {:induction false} NoOptionLeft(cfg: Config, os: string, args: seq<string>)
    requires EndsAt(cfg, os, args) < |args| ==> args[EndsAt(cfg, os, args)] != TERMINATOR
    ensures NoOptionAhead(cfg, ParseArgs(cfg, os, args).nons)
    decreases |args|
  {
    hide ParseElement;
    if args == [] {
    } else if NonOption(args[0]) {
      if cfg.ordering != RequireOrder {
        NoOptionLeft(cfg, os, args[1..]);
        if cfg.ordering == Permute {
          var nons := ParseArgs(cfg, os, args).nons;
          assert nons[1..] == ParseArgs(cfg, os, args[1..]).nons;
          SkipShifts(nons, 1);
        }
      }
    } else {
      NoOptionLeft(cfg, os, args[ParseElement(os, cfg.longopts, args[0], Head(args[1..])).1..]);
    }
  }

  /**
   * After a run over `args[base..]` a further call returns -1 again if and only if no option is ahead in what
   * is left over, whatever option string it reads. That is so after every run that does not end at the terminator.
   */
  lemma StopsAgainIff(cfg: Config, os: string, later: string, args: seq<string>, base: nat, next: Option<string>)
    requires base <= |args| && !Cursor(base, next, [], []).InElement()
    ensures var p, e := ParseArgs(cfg, os, args[base..]), base + EndsAt(cfg, os, args[base..]);
            var argv, i := Settled(args, base, p.opts, p.nons), base + |p.opts|;
            && argv[i..] == p.nons
            && (Call(cfg, later, argv, AtLeftovers(argv, base, i, next)).Stop? <==> NoOptionAhead(cfg, p.nons))
            && (e == |args| || args[e] != TERMINATOR ==> NoOptionAhead(cfg, p.nons))
  {
    hide ParseArgs, NoOptionAhead, Call, EndsAt;
    var p, e := ParseArgs(cfg, os, args[base..]), EndsAt(cfg, os, args[base..]);
    var argv, i := Settled(args, base, p.opts, p.nons), base + |p.opts|;
    assert argv[i..] == p.nons;
    assert !AtLeftovers(argv, base, i, next).InElement();
    FurtherCall(cfg, later, argv, base, i, next);
    NothingToReadIff(cfg, later, p.nons);
    if base + e == |args| || args[base + e] != TERMINATOR { NoOptionLeft(cfg, os, args[base..]); }
  }

  /** Behind the terminator, operands are read as options: after `prog -- -a` a further call returns `a`. */
  lemma OperandIsReadAsOption(cfg: Config)
    requires cfg.longopts == None
    ensures var p := ParseArgs(cfg, "a", ["--", "-a"]);
            && p == Parse([], ["--"], ["-a"])
            && Call(cfg, "a", ["prog", "--", "-a"], AtLeftovers(["prog", "--", "-a"], 1, 2, None))
               == Emit(Plain('a' as int, None), Cursor(3, Some(""), ["--", "-a"], []))
  {
    var args := ["prog", "--", "-a"];
    assert ["--", "-a"][1..] == ["-a"] && "-a"[1..] == "a" && "a"[1..] == "";
    assert args[1..2] == ["--"] && args[3..] == [] && args[2..3] == ["-a"];
    assert KindOf("a", 'a') == NoArg;
  }
}
