/** The permuting, resumable `getopt`: cursor fields that live across calls, and an `argv` rearranged in place. */
module Getopt {
  import opened Common
  import opened GetoptLookup
  import opened GetoptScan
  import opened GetoptLaws

  class GetoptData {
    var optind: int
    var optarg: Option<string>
    var optopt: int
    var initialized: bool
    var nextchar: Option<string>
    var ordering: Ordering
    var firstNonopt: int
    var lastNonopt: int

    constructor ()
      ensures optind == 1 && !initialized
    {
      optind, optarg, optopt, initialized := 1, None, '?' as int, false;
      nextchar, ordering, firstNonopt, lastNonopt := None, Permute, 0, 0;
    }

    /** Exchange the adjacent blocks [firstNonopt, lastNonopt) and [lastNonopt, optind) of `argv`. */
    method Exchange(argv: array<string>)
      requires 0 <= firstNonopt <= lastNonopt <= optind <= argv.Length
      modifies this`firstNonopt, this`lastNonopt, argv
      ensures argv[..] == Exchanged(old(argv[..]), old(firstNonopt), old(lastNonopt), optind)
      ensures firstNonopt == old(firstNonopt) + (optind - old(lastNonopt)) && lastNonopt == optind
    {
      hide *;
      var bottom, middle, top := firstNonopt, lastNonopt, optind;
      ghost var goal := Exchanged(argv[..], bottom, middle, top);
      while top > middle && middle > bottom
        invariant 0 <= bottom <= middle <= top <= argv.Length
        invariant Exchanged(argv[..], bottom, middle, top) == goal
        decreases top - bottom
        modifies argv
      {
        ghost var now := argv[..];
        if top - middle > middle - bottom {
          var len := middle - bottom;
          SwapBlocks(argv, bottom, top - len, len);
          BottomBlockPlaced(now, bottom, middle, top);
          top := top - len;
        } else {
          var len := top - middle;
          SwapBlocks(argv, bottom, middle, len);
          TopBlockPlaced(now, bottom, middle, top);
          bottom := bottom + len;
        }
      }
      NothingToExchange(argv[..], bottom, middle, top);
      firstNonopt := firstNonopt + (optind - lastNonopt);
      lastNonopt := optind;
    }

    /** `argv` and the indices hold what a scan at cursor `s` over the original arguments has made of them. */
    ghost predicate Represents(argv: array<string>, args: seq<string>, base: nat, s: Cursor)
      reads this, argv
    {
      RepresentsWith(argv, args, base, s, firstNonopt, lastNonopt)
    }

    /** The same, if the skipped non-options are taken to be at [first, last). */
    ghost predicate RepresentsWith(argv: array<string>, args: seq<string>, base: nat, s: Cursor, first: int, last: int)
      reads this, argv
    {
      && argv.Length == |args|
      && 1 <= base <= s.i <= |args| && optind == s.i && nextchar == s.next
      && |s.opts| + |s.nons| == s.i - base
      && base <= first <= last <= optind
      && last - first == |s.nons| && first - base <= |s.opts|
      && argv[..] == Layout(args, base, s, first - base)
    }

    /** Between calls the range of skipped non-options may reach beyond `optind`; the next call cuts it off there. */
    ghost predicate Standing(argv: array<string>, args: seq<string>, base: nat, s: Cursor)
      reads this, argv
    {
      if s.InElement() then Represents(argv, args, base, s)
      else RepresentsWith(argv, args, base, s, UpTo(firstNonopt, optind), UpTo(lastNonopt, optind))
    }

    /** The scan has ended: options first, then the non-options, and `optind` at the first of these. */
    ghost predicate Finished(argv: array<string>, args: seq<string>, base: nat, f: Cursor)
      reads this, argv
    {
      && 1 <= base <= |args| == argv.Length
      && argv[..] == Settled(args, base, f.opts, f.nons)
      && optind == base + |f.opts|
      && nextchar == f.next && !f.InElement()
      && base <= UpTo(firstNonopt, optind) == UpTo(lastNonopt, optind)
    }

    method Initialize(optstring: string, posixlyCorrect: bool) returns (rest: string)
      modifies this
      ensures firstNonopt == lastNonopt == optind && nextchar == None
      ensures optind == old(optind) && optarg == old(optarg) && optopt == old(optopt) && initialized == old(initialized)
      ensures ordering == InitialOrdering(optstring, posixlyCorrect)
      ensures rest == EffectiveOptions(optstring)
    {
      firstNonopt, lastNonopt := optind, optind;
      nextchar := None;
      rest := optstring;
      if optstring != "" && optstring[0] == '-' {
        ordering := ReturnInOrder;
        rest := optstring[1..];
      } else if optstring != "" && optstring[0] == '+' {
        ordering := RequireOrder;
        rest := optstring[1..];
      } else if posixlyCorrect {
        ordering := RequireOrder;
      } else {
        ordering := Permute;
      }
    }

    /** Skip to the next option element, permuting on the way; end the scan when there is none. */
    method Advance(argv: array<string>, longopts: Option<seq<LongOpt>>, ghost os: string,
                   ghost args: seq<string>, ghost base: nat, ghost s: Cursor)
      returns (done: bool, positional: bool, ghost t: Cursor)
      requires Standing(argv, args, base, s) && CursorValid(Config(ordering, longopts), args, base, s)
               && !s.InElement()
      modifies this`optind, this`nextchar, this`firstNonopt, this`lastNonopt, argv
      ensures var r := Call(Config(ordering, longopts), os, args, s);
              if done then
                r.Stop? && Finished(argv, args, base, r.cursor)
              else
                && Represents(argv, args, base, t) && t.i < |args|
                && (if positional then
                      r == Emit(Plain(1, Some(args[t.i])), Cursor(t.i + 1, t.next, t.opts + args[t.i..t.i + 1], t.nons))
                    else
                      && !NonOption(args[t.i]) && t.InElement() && t.next.value == AfterDashes(longopts, args[t.i])
                      && r == DecodeAt(Config(ordering, longopts), os, args, t))
    {
      hide Layout, Settled, DecodeAt, Reached, SkipNonOptions, AfterDashes;
      positional, t := false, Reached(Config(ordering, longopts), args, s);
      ReachNext(argv, longopts, args, base, s);
      OptionsBehind(argv, args, base, t);
      if optind != argv.Length && argv[optind] == TERMINATOR {
        t := EndOptions(argv, args, base, t);
      } else {
        LayoutAtEnd(args, base, t, firstNonopt - base);
      }
      if optind == argv.Length {
        if firstNonopt != lastNonopt { optind := firstNonopt; }
        done := true;
        return;
      }
      done := false;
      if NonOption(argv[optind]) {
        if ordering == RequireOrder {
          done := true;
          return;
        }
        positional := true;
        return;
      }
      EnterElement(argv, longopts, args, base, t);
      t := t.(next := nextchar);
    }

    /** Keep the recorded range behind `optind`; in permuting mode, pass over the next non-options. */
    method ReachNext(argv: array<string>, ghost longopts: Option<seq<LongOpt>>,
                     ghost args: seq<string>, ghost base: nat, ghost s: Cursor)
      requires Standing(argv, args, base, s) && CursorValid(Config(ordering, longopts), args, base, s)
      requires !s.InElement()
      modifies this`optind, this`firstNonopt, this`lastNonopt, argv
      ensures var t := Reached(Config(ordering, longopts), args, s);
              && Represents(argv, args, base, t) && (firstNonopt == base + |t.opts| || firstNonopt == lastNonopt)
              && (ordering != Permute ==> t.nons == [])
    {
      hide Layout, Reached;
      if lastNonopt > optind { lastNonopt := optind; }
      if firstNonopt > optind { firstNonopt := optind; }
      if ordering == Permute {
        GatherAndSkip(argv, longopts, args, base, s);
      } else {
        InOrder(Config(ordering, longopts), args, s);
      }
    }

    /** Point `nextchar` behind the dashes of the option element at the cursor. */
    method EnterElement(argv: array<string>, longopts: Option<seq<LongOpt>>,
                        ghost args: seq<string>, ghost base: nat, ghost s: Cursor)
      requires Represents(argv, args, base, s) && s.i < |args| && !NonOption(args[s.i])
      modifies this`nextchar
      ensures nextchar == Some(AfterDashes(longopts, args[s.i]))
      ensures Represents(argv, args, base, s.(next := nextchar))
    {
      hide Layout;
      OptionsBehind(argv, args, base, s);
      nextchar := Some(if IsLong(longopts, argv[optind]) then argv[optind][2..] else argv[optind][1..]);
      LayoutIgnoresText(args, base, s, firstNonopt - base, nextchar);
    }

    /** Permuting mode: bring the options passed before the skipped non-options, then skip more of these. */
    method GatherAndSkip(argv: array<string>, ghost longopts: Option<seq<LongOpt>>,
                         ghost args: seq<string>, ghost base: nat, ghost s: Cursor)
      requires Represents(argv, args, base, s) && ordering == Permute
      modifies this`optind, this`firstNonopt, this`lastNonopt, argv
      ensures Represents(argv, args, base, Reached(Config(ordering, longopts), args, s))
              && firstNonopt == base + |s.opts|
    {
      hide Layout;
      Gather(argv, args, base, s);
      OptionsBehind(argv, args, base, s);
      while optind < argv.Length && NonOption(argv[optind])
        invariant s.i <= optind <= |args|
        invariant SkipNonOptions(args, s.i) == SkipNonOptions(args, optind)
        decreases argv.Length - optind
        modifies this`optind
      {
        optind := optind + 1;
      }
      lastNonopt := optind;
      LayoutSkips(args, base, s, optind);
    }

    method Gather(argv: array<string>, ghost args: seq<string>, ghost base: nat, ghost s: Cursor)
      requires Represents(argv, args, base, s)
      modifies this`firstNonopt, this`lastNonopt, argv
      ensures Represents(argv, args, base, s) && firstNonopt == base + |s.opts|
    {
      hide Layout, Exchanged;
      ExchangeGathers(argv[..], args, base, s, firstNonopt - base);
      if firstNonopt != lastNonopt && lastNonopt != optind {
        Exchange(argv);
      } else if lastNonopt != optind {
        firstNonopt := optind;
        lastNonopt := optind;
      }
    }

    /** The terminator counts as an option; everything behind it is a non-option. */
    method EndOptions(argv: array<string>, ghost args: seq<string>, ghost base: nat, ghost s: Cursor)
      returns (ghost f: Cursor)
      requires Represents(argv, args, base, s)
      requires optind < argv.Length && argv[optind] == TERMINATOR == args[s.i]
      requires firstNonopt == base + |s.opts| || firstNonopt == lastNonopt
      modifies this`optind, this`firstNonopt, this`lastNonopt, argv
      ensures f == Cursor(|args|, s.next, s.opts + [TERMINATOR], s.nons + args[s.i + 1..])
      ensures optind == lastNonopt == argv.Length && firstNonopt == base + |f.opts|
      ensures argv[..] == Settled(args, base, f.opts, f.nons)
    {
      hide Layout, Settled, Exchanged;
      optind := optind + 1;
      ghost var u := Cursor(s.i + 1, s.next, s.opts + [TERMINATOR], s.nons);
      assert args[s.i..s.i + 1] == [TERMINATOR];
      PassElement(argv, args, base, s, 1, s.next);
      ExchangeGathers(argv[..], args, base, u, firstNonopt - base);
      if firstNonopt != lastNonopt && lastNonopt != optind {
        Exchange(argv);
      } else if firstNonopt == lastNonopt {
        firstNonopt := optind;
      }
      lastNonopt := argv.Length;
      optind := argv.Length;
      f := Cursor(|args|, s.next, u.opts, u.nons + args[s.i + 1..]);
      LayoutAtEnd(args, base, u, |u.opts|);
    }

    /** The first call sets the cursor fields up; later calls find them as the last call left them. */
    method Begin(argv: array<string>, optstring: string, posixlyCorrect: bool,
                 ghost args: seq<string>, ghost base: nat, ghost s: Cursor)
      returns (os: string)
      requires initialized && optind != 0 ==> Standing(argv, args, base, s)
      requires !(initialized && optind != 0) ==>
                 1 <= argv.Length && 0 <= optind <= argv.Length && argv[..] == args
                 && base == (if optind == 0 then 1 else optind) && s == Cursor(base, None, [], [])
      modifies this
      ensures initialized && Standing(argv, args, base, s)
      ensures optarg == old(optarg) && optopt == old(optopt)
      ensures if old(initialized && optind != 0) then os == optstring && ordering == old(ordering)
              else os == EffectiveOptions(optstring) && ordering == InitialOrdering(optstring, posixlyCorrect)
    {
      hide Layout, RepresentsWith, InitialOrdering, EffectiveOptions;
      os := optstring;
      if optind == 0 || !initialized {
        if optind == 0 { optind := 1; }
        os := Initialize(optstring, posixlyCorrect);
        initialized := true;
        StartsHere(argv, args, base);
      }
    }

    lemma StartsHere(argv: array<string>, args: seq<string>, base: nat)
      requires argv[..] == args && 1 <= base <= |args| && nextchar == None
      requires optind == base == firstNonopt == lastNonopt
      ensures Standing(argv, args, base, Cursor(base, None, [], []))
    {
      hide Layout;
      LayoutAtRest(args, base, base, None, 0);
      assert args[base..base] == [];
    }

    method TakePositional(argv: array<string>, ghost args: seq<string>, ghost base: nat, ghost s: Cursor)
      requires Represents(argv, args, base, s) && s.i < |args|
      modifies this`optind, this`optarg
      ensures optarg == Some(args[s.i])
      ensures Represents(argv, args, base, Cursor(s.i + 1, s.next, s.opts + args[s.i..s.i + 1], s.nons))
    {
      hide Layout;
      OptionsBehind(argv, args, base, s);
      optarg := Some(argv[optind]);
      optind := optind + 1;
      PassElement(argv, args, base, s, 1, s.next);
    }

    /** Decode the option at the cursor, which stands inside an option element. */
    method Decode(argv: array<string>, os: string, longopts: Option<seq<LongOpt>>,
                  ghost args: seq<string>, ghost base: nat, ghost s: Cursor, ghost next: Outcome)
      returns (code: int, longind: Option<nat>, store: Option<(nat, int)>)
      requires Represents(argv, args, base, s) && s.i < |args| && s.InElement() && NoWExtension(os) && optarg == None
      requires next == DecodeAt(Config(ordering, longopts), os, args, s)
      modifies this`optind, this`nextchar, this`optarg, this`optopt
      ensures var e := next.event;
              && code == e.code && optarg == e.arg && longind == e.longIndex && store == e.store
              && optopt == (if e.opt.Some? then e.opt.value else old(optopt))
      ensures Represents(argv, args, base, next.cursor)
    {
      hide Layout, DecodeLong, DecodeShort;
      OptionsBehind(argv, args, base, s);
      assert argv[optind + 1..] == args[s.i + 1..];
      ghost var d;
      if IsLong(longopts, argv[optind]) {
        code, longind, store, d := DecodeLongOption(argv, os, longopts.value);
      } else {
        code, d := DecodeShortOption(argv, os);
        longind, store := None, None;
      }
      assert next == Emit(d.event, Cursor(s.i + d.used, d.rest, s.opts + args[s.i..s.i + d.used], s.nons));
      PassElement(argv, args, base, s, d.used, d.rest);
    }

    /** Decode the long option whose text `nextchar` holds. */
    method DecodeLongOption(argv: array<string>, os: string, longopts: seq<LongOpt>)
      returns (code: int, longind: Option<nat>, store: Option<(nat, int)>, ghost d: Decoded)
      requires 0 <= optind < argv.Length && nextchar.Some? && optarg == None
      modifies this`optind, this`nextchar, this`optarg, this`optopt
      ensures d == DecodeLong(os, longopts, old(nextchar).value, Head(argv[old(optind) + 1..]))
      ensures code == d.event.code && longind == d.event.longIndex && store == d.event.store
      ensures optarg == d.event.arg && optopt == (if d.event.opt.Some? then d.event.opt.value else old(optopt))
      ensures optind == old(optind) + d.used && nextchar == d.rest
    {
      var word := nextchar.value;
      longind, store := None, None;
      d := DecodeLong(os, longopts, word, Head(argv[optind + 1..]));
      var end := 0;
      while end < |word| && word[end] != '='
        invariant end <= |word| && '=' !in word[..end]
      {
        end := end + 1;
      }
      assert end == IndexOf(word, '=') by {
        assert forall j :: 0 <= j < end ==> word[j] == word[..end][j];
      }
      var found := FindLong(longopts, word[..end], false);
      if found == Ambiguous {
        nextchar, optopt := Some(""), 0;
        optind := optind + 1;
        code := '?' as int;
        return;
      }
      if found == NotFound {
        nextchar, optopt := Some(""), 0;
        optind := optind + 1;
        code := '?' as int;
        return;
      }
      var o := longopts[found.index];
      optind := optind + 1;
      if end < |word| {
        if o.hasArg != 0 {
          optarg := Some(word[end + 1..]);
        } else {
          nextchar, optopt := Some(""), o.val;
          code := '?' as int;
          return;
        }
      } else if o.hasArg == 1 {
        if optind < argv.Length {
          optarg := Some(argv[optind]);
          optind := optind + 1;
        } else {
          nextchar, optopt := Some(""), o.val;
          code := if os != "" && os[0] == ':' then ':' as int else '?' as int;
          return;
        }
      }
      nextchar := Some("");
      longind := Some(found.index);
      if o.flag.Some? {
        store := Some((o.flag.value, o.val));
        code := 0;
      } else {
        code := o.val;
      }
    }

    /** Decode the next character of the cluster that `nextchar` holds. */
    method DecodeShortOption(argv: array<string>, os: string) returns (code: int, ghost d: Decoded)
      requires 0 <= optind < argv.Length && nextchar.Some? && nextchar.value != "" && optarg == None && NoWExtension(os)
      modifies this`optind, this`nextchar, this`optarg, this`optopt
      ensures d == DecodeShort(os, old(nextchar).value, Head(argv[old(optind) + 1..]))
      ensures code == d.event.code && d.event.longIndex == None && d.event.store == None
      ensures optarg == d.event.arg && optopt == (if d.event.opt.Some? then d.event.opt.value else old(optopt))
      ensures optind == old(optind) + d.used && nextchar == d.rest
    {
      d := DecodeShort(os, nextchar.value, Head(argv[optind + 1..]));
      var c := nextchar.value[0];
      nextchar := Some(nextchar.value[1..]);
      var temp := IndexOf(os, c);
      if nextchar.value == "" { optind := optind + 1; }
      if temp == |os| || c == ':' {
        optopt := CharCode(c);
        code := '?' as int;
        return;
      }
      code := CharCode(c);
      if temp + 1 < |os| && os[temp + 1] == ':' {
        if temp + 2 < |os| && os[temp + 2] == ':' {
          if nextchar.value != "" {
            optarg := nextchar;
            optind := optind + 1;
          } else {
            optarg := None;
          }
          nextchar := None;
        } else {
          if nextchar.value != "" {
            optarg := nextchar;
            optind := optind + 1;
          } else if optind == argv.Length {
            optopt := CharCode(c);
            code := if os[0] == ':' then ':' as int else '?' as int;
          } else {
            optarg := Some(argv[optind]);
            optind := optind + 1;
          }
          nextchar := None;
        }
      }
    }

    /** Everything from the cursor on is still where it was. */
    lemma OptionsBehind(argv: array<string>, args: seq<string>, base: nat, s: Cursor)
      requires Represents(argv, args, base, s)
      ensures argv[s.i..] == args[s.i..]
      ensures forall k :: s.i <= k < |args| ==> argv[k] == args[k]
    {
      var k := firstNonopt - base;
      var front := args[..base] + s.opts[..k] + s.nons + s.opts[k..];
      assert argv[..] == front + args[s.i..] && |front| == s.i;
      assert argv[s.i..] == argv[..][s.i..];
      assert forall k :: s.i <= k < |args| ==> argv[k] == argv[s.i..][k - s.i] && args[k] == args[s.i..][k - s.i];
    }

    /** Once `optind` has moved over `used` elements, these count as used up by options. */
    lemma PassElement(argv: array<string>, args: seq<string>, base: nat, s: Cursor, used: nat, rest: Option<string>)
      requires s.i + used <= |args| == argv.Length
      requires 1 <= base <= s.i && optind == s.i + used && nextchar == rest
      requires |s.opts| + |s.nons| == s.i - base && base <= firstNonopt <= lastNonopt <= s.i
      requires lastNonopt - firstNonopt == |s.nons| && firstNonopt - base <= |s.opts|
      requires argv[..] == Layout(args, base, s, firstNonopt - base)
      ensures Represents(argv, args, base, Cursor(s.i + used, rest, s.opts + args[s.i..s.i + used], s.nons))
    {
      hide Layout;
      LayoutPasses(args, base, s, firstNonopt - base, used);
      var t := Cursor(s.i + used, rest, s.opts + args[s.i..s.i + used], s.nons);
      assert Layout(args, base, t, firstNonopt - base) ==
             Layout(args, base, t.(next := s.next), firstNonopt - base) by {
        LayoutIgnoresText(args, base, t, firstNonopt - base, s.next);
      }
    }

    /** A call continues where the last one stopped, or begins at `optind`. */
    ghost predicate Callable(argv: array<string>, longopts: Option<seq<LongOpt>>, args: seq<string>, base: nat,
                             s: Cursor)
      reads this, argv
    {
      if initialized && optind != 0 then
        Standing(argv, args, base, s) && CursorValid(Config(ordering, longopts), args, base, s)
      else
        && 1 <= argv.Length && 0 <= optind <= argv.Length && argv[..] == args
        && base == (if optind == 0 then 1 else optind) && s == Cursor(base, None, [], [])
    }

    /** A further call would go on in front of what is left over. */
    ghost predicate Rests(argv: array<string>, longopts: Option<seq<LongOpt>>, base: nat)
      reads this, argv
    {
      && initialized && optind != 0 && base <= optind <= argv.Length
      && Callable(argv, longopts, argv[..], base, AtLeftovers(argv[..], base, optind, nextchar))
      && !AtLeftovers(argv[..], base, optind, nextchar).InElement()
    }

    /** Where the scan has ended, the object stands in front of what is left over. */
    lemma RestsThere(argv: array<string>, longopts: Option<seq<LongOpt>>, args: seq<string>, base: nat, f: Cursor)
      requires initialized && Finished(argv, args, base, f)
      ensures Rests(argv, longopts, base)
    {
      hide Settled, Layout;
      SettledLength(argv[..], args, base, f);
      ghost var now, first := argv[..], UpTo(firstNonopt, optind);
      LayoutAtRest(now, base, optind, nextchar, first - base);
      assert RepresentsWith(argv, now, base, AtLeftovers(now, base, optind, nextchar), first, first);
    }

    /**
     * One call. The ghost arguments are the original command line, the index of its first argument
     * to be scanned, and the cursor that the object represents.
     */
    method GetoptInternal(argv: array<string>, optstring: string, longopts: Option<seq<LongOpt>>, posixlyCorrect: bool,
                          ghost args: seq<string>, ghost base: nat, ghost s: Cursor)
      returns (code: int, longind: Option<nat>, store: Option<(nat, int)>, ghost next: Outcome)
      requires NoWExtension(optstring)
      requires argv.Length > 0 ==> Callable(argv, longopts, args, base, s)
      modifies this, argv
      ensures argv.Length == 0 ==> code == -1 && longind == None && store == None && unchanged(this)
      ensures argv.Length > 0 ==> initialized
      ensures argv.Length > 0 ==>
                ordering == if old(initialized && optind != 0) then old(ordering)
                            else InitialOrdering(optstring, posixlyCorrect)
      ensures argv.Length > 0 ==> s.i <= |args| && (s.InElement() ==> s.i < |args|)
      ensures argv.Length > 0 ==>
                next == Call(Config(ordering, longopts),
                             if old(initialized && optind != 0) then optstring else EffectiveOptions(optstring),
                             args, s)
      ensures argv.Length > 0 ==>
                match next
                case Stop(f) =>
                  code == -1 && optarg == None && longind == None && store == None
                  && Finished(argv, args, base, f)
                  && Rests(argv, longopts, base)
                case Emit(e, s') =>
                  code == e.code && optarg == e.arg && longind == e.longIndex && store == e.store
                  && optopt == (if e.opt.Some? then e.opt.value else old(optopt))
                  && Represents(argv, args, base, s') && CursorValid(Config(ordering, longopts), args, base, s')
                  && optind != 0 && s'.i <= |args| && (s'.InElement() ==> s'.i < |args|)
    {
      hide Layout, Settled, DecodeAt, Call;
      longind, store := None, None;
      if argv.Length < 1 {
        code, next := -1, Stop(s);
        return;
      }
      optarg := None;
      var os := Begin(argv, optstring, posixlyCorrect, args, base, s);
      ghost var cfg := Config(ordering, longopts);
      next := Call(cfg, os, args, s);
      CallKeepsCursor(cfg, os, args, base, s);
      ghost var t := s;
      if nextchar == None || nextchar == Some("") {
        var done, positional;
        done, positional, t := Advance(argv, longopts, os, args, base, s);
        if done {
          code := -1;
          RestsThere(argv, longopts, args, base, next.cursor);
          return;
        }
        if positional {
          TakePositional(argv, args, base, t);
          code := 1;
          return;
        }
      } else {
        InsideElement(cfg, os, args, s);
      }
      code, longind, store := Decode(argv, os, longopts, args, base, t, next);
    }
  }

  /** What a caller learns from one call that returns an option. */
  datatype Observation = Observation(code: int, arg: Option<string>, longind: Option<nat>, store: Option<(nat, int)>)

  function Observe(events: seq<Event>): (r: seq<Observation>)
    ensures |r| == |events|
  {
    seq(|events|, i requires 0 <= i < |events| =>
      Observation(events[i].code, events[i].arg, events[i].longIndex, events[i].store))
  }

  /** The events before the first one whose code is the end marker -1. */
  function UntilEndMarker(events: seq<Event>): (r: seq<Event>)
    ensures r <= events && (|r| < |events| ==> events[|r|].code == -1)
    ensures forall e :: e in r ==> e.code != -1
  {
    if events == [] || events[0].code == -1 then [] else [events[0]] + UntilEndMarker(events[1..])
  }

  lemma UntilEndMarkerOf(pre: seq<Event>, rest: seq<Event>)
    requires forall e :: e in pre ==> e.code != -1
    requires rest == [] || rest[0].code == -1
    ensures UntilEndMarker(pre + rest) == pre
  {
    if pre == [] {
      assert pre + rest == rest;
    } else {
      assert (pre + rest)[1..] == pre[1..] + rest;
      UntilEndMarkerOf(pre[1..], rest);
    }
  }

  /**
   * What a run over the arguments promises when the first call reads the option string `first`, and
   * every later one `later`.
   */
  ghost function Promised(cfg: Config, first: string, later: string, args: seq<string>, base: nat, s: Cursor): Parse
    requires CursorValid(cfg, args, base, s)
  {
    CallKeepsCursor(cfg, first, args, base, s);
    match Call(cfg, first, args, s)
    case Stop(f) => Parse([], f.opts, f.nons)
    case Emit(e, s') =>
      var q := Remaining(cfg, later, args, s');
      Parse([e] + q.events, q.opts, q.nons)
  }

  function Start(base: nat): Cursor { Cursor(base, None, [], []) }

  /** An option string without an ordering prefix promises the simple parse of the arguments. */
  lemma PromisedIsParse(cfg: Config, os: string, args: seq<string>, base: nat)
    requires base <= |args|
    ensures Promised(cfg, os, os, args, base, Start(base)) == ParseArgs(cfg, os, args[base..])
  {
    hide ParseArgs, Call;
    CallIsParsing(cfg, os, args, base, Start(base));
    CallKeepsCursor(cfg, os, args, base, Start(base));
    RemainingAtStart(cfg, os, args, base);
  }

  lemma RemainingAtStart(cfg: Config, os: string, args: seq<string>, base: nat)
    requires base <= |args|
    ensures Remaining(cfg, os, args, Start(base)) == ParseArgs(cfg, os, args[base..])
  {
    var p := ParseArgs(cfg, os, args[base..]);
    assert [] + p.opts == p.opts && [] + p.nons == p.nons;
  }

  /**
   * A caller's loop over a command line, from initialisation to the first -1, in each ordering mode.
   * The options seen are the promised ones up to one whose own code is -1; when there is none, `argv`
   * ends up as what was used up followed by what is left over, with `optind` at the first of these,
   * where a further call would go on.
   */
  method GetoptLoop(d: GetoptData, argv: array<string>, optstring: string, longopts: Option<seq<LongOpt>>,
                    posixlyCorrect: bool)
    returns (seen: seq<Observation>)
    requires !d.initialized && (argv.Length > 0 ==> 0 <= d.optind <= argv.Length)
    requires NoWExtension(optstring)
    modifies d, argv
    ensures argv.Length == 0 ==> seen == [] && unchanged(d)
    ensures argv.Length > 0 ==>
              var args, base := old(argv[..]), if old(d.optind) == 0 then 1 else old(d.optind);
              var cfg := Config(InitialOrdering(optstring, posixlyCorrect), longopts);
              var p := Promised(cfg, EffectiveOptions(optstring), optstring, args, base, Start(base));
              && seen == Observe(UntilEndMarker(p.events))
              && (UntilEndMarker(p.events) == p.events ==>
                    && argv[..] == args[..base] + p.opts + p.nons && d.optind == base + |p.opts|
                    && (cfg.ordering != Permute ==> argv[..] == args)
                    && d.ordering == cfg.ordering && d.Rests(argv, longopts, base))
  {
    hide *;
    if argv.Length == 0 {
      var _, _, _, _ := d.GetoptInternal(argv, optstring, longopts, posixlyCorrect, [], 0, Start(0));
      return [];
    }
    ghost var args, base := argv[..], if d.optind == 0 then 1 else d.optind;
    ghost var s := Start(base);
    ghost var cfg := Config(InitialOrdering(optstring, posixlyCorrect), longopts);
    StartIsValid(cfg, args, base);
    ghost var p := Promised(cfg, EffectiveOptions(optstring), optstring, args, base, s);
    ghost var events: seq<Event> := [];
    seen := [];
    LoopStarts(d, argv, cfg, optstring, posixlyCorrect, args, base, p);
    var more := true;
    while more
      invariant s.i <= |args| && base <= |args|
      invariant more ==>
                  && Running(d, argv, cfg, optstring, posixlyCorrect, args, base, s, p, events)
                  && seen == Observe(events)
      invariant !more ==> Ended(d, argv, cfg, args, base, p) && seen == Observe(UntilEndMarker(p.events))
      decreases more, Measure(args, s).0, Measure(args, s).1
    {
      var code, longind, store;
      ghost var e, s';
      code, longind, store, e, s' :=
        NextOption(d, argv, cfg, optstring, longopts, posixlyCorrect, args, base, s, p, events);
      if code == -1 {
        more := false;
      } else {
        ObserveOneMore(events, e);
        seen := seen + [Observation(code, d.optarg, longind, store)];
        events := events + [e];
        s := s';
      }
    }
    LoopDone(d, argv, cfg, args, base, p);
    if cfg.ordering != Permute { NothingMoves(cfg, EffectiveOptions(optstring), optstring, args, base); }
  }

  /** Unless it permutes, a run leaves the arguments where they are. */
  lemma NothingMoves(cfg: Config, first: string, later: string, args: seq<string>, base: nat)
    requires cfg.ordering != Permute && base <= |args| && CursorValid(cfg, args, base, Start(base))
    ensures var p := Promised(cfg, first, later, args, base, Start(base)); Settled(args, base, p.opts, p.nons) == args
  {
    hide DecodeAt, Remaining, Call;
    CallKeepsCursor(cfg, first, args, base, Start(base));
    OptionsSoFar(cfg, first, args, base);
    var r := Call(cfg, first, args, Start(base));
    if r.Emit? { RestKeepsOrder(cfg, later, args, base, r.cursor); }
    var p := Promised(cfg, first, later, args, base, Start(base));
    assert args[..base] + p.opts + p.nons == args[..base] + (p.opts + p.nons) == args;
  }

  lemma RestKeepsOrder(cfg: Config, os: string, args: seq<string>, base: nat, s: Cursor)
    requires cfg.ordering != Permute && base <= s.i <= |args| && (s.InElement() ==> s.i < |args|)
    requires s.opts == args[base..s.i] && s.nons == []
    ensures var p := Remaining(cfg, os, args, s); p.opts + p.nons == args[base..]
  {
    hide ParseArgs, ParseCluster;
    var i := if s.InElement() then s.i + ParseCluster(os, s.next.value, Head(args[s.i + 1..])).1 else s.i;
    var q := ParseArgs(cfg, os, args[i..]);
    OrderKeptUnlessPermuting(cfg, os, args[i..]);
    assert args[base..s.i] + args[s.i..i] == args[base..i];
    assert args[s.i..s.i] == [] && s.opts + q.opts + q.nons == s.opts + (q.opts + q.nons);
    assert args[base..i] + q.opts + q.nons == args[base..i] + (q.opts + q.nons);
    assert args[base..i] + args[i..] == args[base..];
    assert [] + q.nons == q.nons;
  }

  /** After the first call, what was used up and left over is a piece of the arguments. */
  lemma OptionsSoFar(cfg: Config, os: string, args: seq<string>, base: nat)
    requires cfg.ordering != Permute && base <= |args|
    ensures match Call(cfg, os, args, Start(base))
            case Stop(f) => f.opts + f.nons == args[base..]
            case Emit(_, s) => base <= s.i <= |args| && s.opts == args[base..s.i] && s.nons == []
  {
    hide DecodeLong, DecodeShort;
    InOrder(cfg, args, Start(base));
  }

  lemma StartIsValid(cfg: Config, args: seq<string>, base: nat)
    requires base <= |args|
    ensures CursorValid(cfg, args, base, Start(base)) && Start(base).i == base
  {
  }

  ghost predicate Running(d: GetoptData, argv: array<string>, cfg: Config, os: string, posixlyCorrect: bool,
                          args: seq<string>, base: nat, s: Cursor, p: Parse, events: seq<Event>)
    reads d, argv
  {
    && NoWExtension(os) && cfg.ordering == InitialOrdering(os, posixlyCorrect)
    && CursorValid(cfg, args, base, s)
    && (forall e :: e in events ==> e.code != -1)
    && if d.initialized then
         && d.optind != 0 && d.ordering == cfg.ordering && d.Represents(argv, args, base, s)
         && Pending(p, events, Remaining(cfg, os, args, s))
       else
         && argv[..] == args && 0 <= d.optind <= argv.Length && 1 <= argv.Length
         && base == (if d.optind == 0 then 1 else d.optind) && s == Start(base)
         && events == [] && p == Promised(cfg, EffectiveOptions(os), os, args, base, s)
  }

  ghost predicate Ended(d: GetoptData, argv: array<string>, cfg: Config, args: seq<string>, base: nat, p: Parse)
    reads d, argv
    requires base <= |args|
  {
    UntilEndMarker(p.events) == p.events ==>
      && argv[..] == Settled(args, base, p.opts, p.nons) && d.optind == base + |p.opts|
      && d.ordering == cfg.ordering && d.Rests(argv, cfg.longopts, base)
  }

  lemma LoopStarts(d: GetoptData, argv: array<string>, cfg: Config, os: string, posixlyCorrect: bool,
                   args: seq<string>, base: nat, p: Parse)
    requires !d.initialized && 1 <= argv.Length && 0 <= d.optind <= argv.Length && argv[..] == args
    requires NoWExtension(os) && cfg.ordering == InitialOrdering(os, posixlyCorrect)
    requires base == (if d.optind == 0 then 1 else d.optind) && CursorValid(cfg, args, base, Start(base))
    requires p == Promised(cfg, EffectiveOptions(os), os, args, base, Start(base))
    ensures Running(d, argv, cfg, os, posixlyCorrect, args, base, Start(base), p, [])
    ensures Observe([]) == []
  {
    hide Promised;
  }

  lemma LoopDone(d: GetoptData, argv: array<string>, cfg: Config, args: seq<string>, base: nat, p: Parse)
    requires base <= |args| && Ended(d, argv, cfg, args, base, p)
    ensures UntilEndMarker(p.events) == p.events ==>
              && argv[..] == Settled(args, base, p.opts, p.nons) == args[..base] + p.opts + p.nons
              && d.optind == base + |p.opts| && d.ordering == cfg.ordering && d.Rests(argv, cfg.longopts, base)
  {
    hide UntilEndMarker;
  }

  /** One turn of the loop: the next promised event, or the end. */
  method NextOption(d: GetoptData, argv: array<string>, ghost cfg: Config, os: string, longopts: Option<seq<LongOpt>>,
                    posixlyCorrect: bool, ghost args: seq<string>, ghost base: nat, ghost s: Cursor,
                    ghost p: Parse, ghost events: seq<Event>)
    returns (code: int, longind: Option<nat>, store: Option<(nat, int)>, ghost e: Event, ghost s': Cursor)
    requires s.i <= |args| && base <= |args| && cfg.longopts == longopts
    requires Running(d, argv, cfg, os, posixlyCorrect, args, base, s, p, events)
    modifies d, argv
    ensures s'.i <= |args|
    ensures code == -1 ==> UntilEndMarker(p.events) == events && Ended(d, argv, cfg, args, base, p)
    ensures code != -1 ==>
              && Observation(code, d.optarg, longind, store) == Observation(e.code, e.arg, e.longIndex, e.store)
              && Running(d, argv, cfg, os, posixlyCorrect, args, base, s', p, events + [e])
              && var m, m' := Measure(args, s), Measure(args, s');
                 0 <= m'.0 && 0 <= m'.1 && (m'.0 < m.0 || (m'.0 == m.0 && m'.1 < m.1))
  {
    hide ParseArgs, Call, Layout, Settled, Remaining, UntilEndMarker, Pending, TakesNext, Promised;
    hide InitialOrdering, EffectiveOptions;
    NotEmpty(d, argv, cfg, os, posixlyCorrect, args, base, s, p, events);
    ghost var rest := ToCome(d, argv, cfg, os, posixlyCorrect, args, base, s, p, events);
    ghost var read := if d.initialized then os else EffectiveOptions(os);
    ghost var next;
    s' := s;
    e := Plain(0, None);
    code, longind, store, next := d.GetoptInternal(argv, os, longopts, posixlyCorrect, args, base, s);
    if code == -1 {
      LoopEnds(cfg, os, args, p, events, next, rest);
    } else {
      e, s' := next.event, next.cursor;
      CallMakesProgress(cfg, read, args, base, s);
      LoopGoesOn(cfg, os, args, p, events, next, rest);
    }
  }

  /** What is still to come before a call, and how that call takes the next event off it. */
  lemma ToCome(d: GetoptData, argv: array<string>, cfg: Config, os: string, posixlyCorrect: bool,
               args: seq<string>, base: nat, s: Cursor, p: Parse, events: seq<Event>) returns (rest: Parse)
    requires s.i <= |args| && Running(d, argv, cfg, os, posixlyCorrect, args, base, s, p, events)
    ensures Pending(p, events, rest)
    ensures TakesNext(cfg, os, args, Call(cfg, if d.initialized then os else EffectiveOptions(os), args, s), rest)
  {
    hide ParseArgs, Layout, Call, InitialOrdering;
    if d.initialized {
      rest := Remaining(cfg, os, args, s);
      CallIsParsing(cfg, os, args, base, s);
    } else {
      rest := p;
      CallKeepsCursor(cfg, EffectiveOptions(os), args, base, s);
      assert [] + p.events == p.events;
    }
  }

  /** The parse `p` is the events seen so far followed by what is still to come. */
  ghost predicate Pending(p: Parse, events: seq<Event>, rest: Parse) {
    p == Parse(events + rest.events, rest.opts, rest.nons)
  }

  lemma NotEmpty(d: GetoptData, argv: array<string>, cfg: Config, os: string, posixlyCorrect: bool,
                 args: seq<string>, base: nat, s: Cursor, p: Parse, events: seq<Event>)
    requires s.i <= |args| && Running(d, argv, cfg, os, posixlyCorrect, args, base, s, p, events)
    ensures argv.Length > 0 && d.Callable(argv, cfg.longopts, args, base, s)
    ensures CursorValid(cfg, args, base, s) && (!d.initialized || d.optind != 0)
  {
    hide Layout, Pending, Remaining, Promised;
  }

  lemma LoopEnds(cfg: Config, os: string, args: seq<string>, p: Parse, events: seq<Event>, next: Outcome, rest: Parse)
    requires Pending(p, events, rest) && forall e :: e in events ==> e.code != -1
    requires TakesNext(cfg, os, args, next, rest) && (next.Emit? ==> next.event.code == -1)
    ensures UntilEndMarker(p.events) == events
    ensures UntilEndMarker(p.events) == p.events ==> next.Stop?
    ensures next.Stop? ==> p.opts == next.cursor.opts && p.nons == next.cursor.nons
  {
    hide Remaining;
    UntilEndMarkerOf(events, rest.events);
    if next.Emit? {
      assert |p.events| > |events|;
    }
  }

  lemma ObserveOneMore(events: seq<Event>, e: Event)
    ensures Observe([]) == []
    ensures Observe(events + [e]) == Observe(events) + [Observation(e.code, e.arg, e.longIndex, e.store)]
  {
  }

  lemma LoopGoesOn(cfg: Config, os: string, args: seq<string>, p: Parse, events: seq<Event>, next: Outcome, rest: Parse)
    requires Pending(p, events, rest) && TakesNext(cfg, os, args, next, rest) && next.Emit?
    ensures next.cursor.i <= |args| && (next.cursor.InElement() ==> next.cursor.i < |args|)
    ensures Pending(p, events + [next.event], Remaining(cfg, os, args, next.cursor))
  {
    hide Remaining;
    var q := Remaining(cfg, os, args, next.cursor);
    assert events + ([next.event] + q.events) == (events + [next.event]) + q.events;
  }

  lemma InOrder(cfg: Config, args: seq<string>, s: Cursor)
    requires s.i <= |args| && cfg.ordering != Permute
    ensures Reached(cfg, args, s) == s
  {
    assert args[s.i..s.i] == [] && s.nons + [] == s.nons;
  }

  lemma InsideElement(cfg: Config, os: string, args: seq<string>, s: Cursor)
    requires s.i < |args| && s.InElement()
    ensures Call(cfg, os, args, s) == DecodeAt(cfg, os, args, s)
  {
  }

  /** Swap the blocks of `len` elements at `i` and at `j`. */
  method SwapBlocks(argv: array<string>, i: nat, j: nat, len: nat)
    requires i + len <= j && j + len <= argv.Length
    modifies argv
    ensures argv[..] == Swapped(old(argv[..]), i, j, len)
  {
    ghost var was := argv[..];
    var n := 0;
    while n < len
      invariant 0 <= n <= len
      invariant forall k :: 0 <= k < argv.Length ==> argv[k] == SwappedAt(was, i, j, n, k)
    {
      var tem := argv[i + n];
      argv[i + n] := argv[j + n];
      argv[j + n] := tem;
      n := n + 1;
    }
  }

  /** The cursor of an object that rests at `i`: everything from `base` to there is used up. */
  function AtLeftovers(args: seq<string>, base: nat, i: int, next: Option<string>): Cursor
    requires base <= i <= |args|
  {
    Cursor(i, next, args[base..i], [])
  }

  lemma SettledLength(argv: seq<string>, args: seq<string>, base: nat, f: Cursor)
    requires base <= |args| && argv == Settled(args, base, f.opts, f.nons)
    ensures base + |f.opts| <= |argv|
  {
  }

  lemma LayoutAtRest(args: seq<string>, base: nat, i: int, next: Option<string>, k: int)
    requires base <= i <= |args| && 0 <= k <= i - base
    ensures Layout(args, base, AtLeftovers(args, base, i, next), k) == args
  {
    var used := args[base..i];
    assert used[..k] + [] + used[k..] == used;
    assert args[..base] + used[..k] + [] + used[k..] == args[..base] + used == args[..i];
  }

  function UpTo(n: int, bound: int): int { if n > bound then bound else n }

  /** The blocks [a, b) and [b, c) of `s` in exchanged places. */
  function Exchanged(s: seq<string>, a: int, b: int, c: int): (r: seq<string>)
    requires 0 <= a <= b <= c <= |s|
    ensures |r| == |s|
  {
    seq(|s|, k requires 0 <= k < |s| =>
      if a <= k < a + (c - b) then s[k + (b - a)] else if a + (c - b) <= k < c then s[k - (c - b)] else s[k])
  }

  /** The blocks of `len` elements at `i` and at `j` of `s` in swapped places. */
  function Swapped(s: seq<string>, i: int, j: int, len: int): (r: seq<string>)
    requires 0 <= len && 0 <= i && i + len <= j && j + len <= |s|
    ensures |r| == |s|
  {
    seq(|s|, k requires 0 <= k < |s| => SwappedAt(s, i, j, len, k))
  }

  function SwappedAt(s: seq<string>, i: int, j: int, len: int, k: int): string
    requires 0 <= len && 0 <= i && i + len <= j && j + len <= |s| && 0 <= k < |s|
  {
    if i <= k < i + len then s[k + (j - i)] else if j <= k < j + len then s[k - (j - i)] else s[k]
  }

  /** `Exchanged` puts the second block in front of the first and leaves the rest alone. */
  lemma ExchangedIsConcatenation(s: seq<string>, a: int, b: int, c: int)
    requires 0 <= a <= b <= c <= |s|
    ensures Exchanged(s, a, b, c) == s[..a] + s[b..c] + s[a..b] + s[c..]
  {
  }

  /** The arguments when the elements passed so far are the options, with the non-options in front of the `k`-th. */
  function Layout(args: seq<string>, base: nat, s: Cursor, k: int): (r: seq<string>)
    requires base <= s.i <= |args| && 0 <= k <= |s.opts|
    ensures |r| == base + |s.opts| + |s.nons| + |args| - s.i
  {
    args[..base] + s.opts[..k] + s.nons + s.opts[k..] + args[s.i..]
  }

  /** The whole command line with the option elements in front of the others. */
  function Settled(args: seq<string>, base: nat, opts: seq<string>, nons: seq<string>): (r: seq<string>)
    requires base <= |args|
    ensures |r| == base + |opts| + |nons|
  {
    args[..base] + opts + nons
  }

  lemma LayoutSkips(args: seq<string>, base: nat, s: Cursor, j: nat)
    requires base <= s.i <= j <= |args|
    ensures Layout(args, base, s.(i := j, nons := s.nons + args[s.i..j]), |s.opts|) == Layout(args, base, s, |s.opts|)
  {
    assert args[s.i..] == args[s.i..j] + args[j..];
  }

  lemma LayoutAtEnd(args: seq<string>, base: nat, s: Cursor, k: int)
    requires base <= s.i <= |args| && 0 <= k <= |s.opts| && (k == |s.opts| || s.nons == [])
    ensures Layout(args, base, s, k) == Settled(args, base, s.opts, s.nons + args[s.i..])
    ensures s.i == |args| ==> s.nons + args[s.i..] == s.nons
  {
    assert s.opts[..k] + s.opts[k..] == s.opts;
  }

  lemma LayoutIgnoresText(args: seq<string>, base: nat, s: Cursor, k: int, next: Option<string>)
    requires base <= s.i <= |args| && 0 <= k <= |s.opts|
    ensures Layout(args, base, s.(next := next), k) == Layout(args, base, s, k)
  {
  }

  lemma LayoutPasses(args: seq<string>, base: nat, s: Cursor, k: int, used: nat)
    requires base <= s.i && s.i + used <= |args| && 0 <= k <= |s.opts|
    ensures Layout(args, base, s.(i := s.i + used, opts := s.opts + args[s.i..s.i + used]), k)
            == Layout(args, base, s, k)
  {
    var opts := s.opts + args[s.i..s.i + used];
    assert opts[..k] == s.opts[..k] && opts[k..] == s.opts[k..] + args[s.i..s.i + used];
    assert args[s.i..] == args[s.i..s.i + used] + args[s.i + used..];
  }

  /** Exchanging the non-options with the options that follow them gathers both. */
  lemma ExchangeGathers(argv: seq<string>, args: seq<string>, base: nat, s: Cursor, k: nat)
    requires base <= s.i <= |args| && k <= |s.opts| && |s.opts| + |s.nons| == s.i - base
    requires argv == Layout(args, base, s, k)
    ensures var first, last := base + k, base + k + |s.nons|;
            && Exchanged(argv, first, last, s.i) == Layout(args, base, s, |s.opts|)
            && (s.nons == [] ==> argv == Layout(args, base, s, |s.opts|))
  {
    var first, last := base + k, base + k + |s.nons|;
    ExchangedIsConcatenation(argv, first, last, s.i);
    assert argv[..first] == args[..base] + s.opts[..k];
    assert argv[last..s.i] == s.opts[k..];
    assert argv[first..last] == s.nons;
    assert argv[s.i..] == args[s.i..];
    assert s.opts[..k] + s.opts[k..] == s.opts && s.opts[..|s.opts|] == s.opts && s.opts[|s.opts|..] == [];
    assert args[..base] + s.opts[..k] + s.opts[k..] == args[..base] + s.opts;
  }

  lemma NothingToExchange(s: seq<string>, bottom: int, middle: int, top: int)
    requires 0 <= bottom <= middle <= top <= |s| && (top == middle || middle == bottom)
    ensures Exchanged(s, bottom, middle, top) == s
  {
  }

  /** After the shorter bottom block has gone to the top, what is left to exchange is one block shorter. */
  lemma BottomBlockPlaced(s: seq<string>, bottom: int, middle: int, top: int)
    requires 0 <= bottom < middle < top <= |s| && top - middle > middle - bottom
    ensures var len := middle - bottom;
            Exchanged(Swapped(s, bottom, top - len, len), bottom, middle, top - len)
            == Exchanged(s, bottom, middle, top)
  {
  }

  lemma TopBlockPlaced(s: seq<string>, bottom: int, middle: int, top: int)
    requires 0 <= bottom < middle < top <= |s| && top - middle <= middle - bottom
    ensures var len := top - middle;
            Exchanged(Swapped(s, bottom, middle, len), bottom + len, middle, top) == Exchanged(s, bottom, middle, top)
  {
  }

  function InitialOrdering(optstring: string, posixlyCorrect: bool): Ordering {
    if optstring != "" && optstring[0] == '-' then ReturnInOrder
    else if optstring != "" && optstring[0] == '+' then RequireOrder
    else if posixlyCorrect then RequireOrder
    else Permute
  }

  function EffectiveOptions(optstring: string): string {
    if optstring != "" && (optstring[0] == '-' || optstring[0] == '+') then optstring[1..] else optstring
  }
}
