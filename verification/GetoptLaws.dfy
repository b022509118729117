/** Laws of the simple parse: what the documentation of `getopt` promises about command lines. */
module GetoptLaws {
  import opened Common
  import opened GetoptLookup
  import opened GetoptScan

  // ----- options and non-options are a stable partition of the arguments -----

  /** Which arguments the parse uses up as options. */
  function Mask(cfg: Config, os: string, args: seq<string>): (m: seq<bool>)
    ensures |m| == |args|
    decreases |args|
  {
    if args == [] then []
    else if args[0] == TERMINATOR then [true] + seq(|args| - 1, i => false)
    else if NonOption(args[0]) then
      if cfg.ordering == RequireOrder then seq(|args|, i => false)
      else [cfg.ordering == ReturnInOrder] + Mask(cfg, os, args[1..])
    else
      var used := ParseElement(os, cfg.longopts, args[0], Head(args[1..])).1;
      seq(used, i => true) + Mask(cfg, os, args[used..])
  }

  /** The arguments whose flag is `b`, in their original order. */
  function Select(args: seq<string>, mask: seq<bool>, b: bool): seq<string>
    requires |mask| == |args|
  {
    if args == [] then []
    else (if mask[0] == b then [args[0]] else []) + Select(args[1..], mask[1..], b)
  }

  lemma {:induction false} SelectSplits(args: seq<string>, mask: seq<bool>, b: bool, k: nat)
    requires |mask| == |args| && k <= |args|
    ensures Select(args, mask, b) == Select(args[..k], mask[..k], b) + Select(args[k..], mask[k..], b)
  {
    hide Select;
    SelectSplitsHead(args, mask, b);
    SelectSplitsHead(args[..k], mask[..k], b);
    if k == 0 {
      assert args[0..] == args && mask[0..] == mask;
    } else {
      SelectSplits(args[1..], mask[1..], b, k - 1);
      assert args[1..][..k - 1] == args[..k][1..] && mask[1..][..k - 1] == mask[..k][1..];
      assert args[1..][k - 1..] == args[k..] && mask[1..][k - 1..] == mask[k..];
    }
  }

  lemma {:induction false} SelectUniform(args: seq<string>, mask: seq<bool>, b: bool)
    requires |mask| == |args| && forall i :: 0 <= i < |mask| ==> mask[i] == mask[0]
    ensures Select(args, mask, b) == if args == [] || mask[0] != b then [] else args
  {
    if args != [] {
      assert forall i :: 0 <= i < |mask[1..]| ==> mask[1..][i] == mask[i + 1];
      SelectUniform(args[1..], mask[1..], b);
    }
  }

  /** Both halves of the parse keep the original order: together they are a stable partition. */
  lemma {:induction false} ParseIsStablePartition(cfg: Config, os: string, args: seq<string>)
    ensures var p, m := ParseArgs(cfg, os, args), Mask(cfg, os, args);
            p.opts == Select(args, m, true) && p.nons == Select(args, m, false)
    decreases |args|
  {
    hide ParseElement, Select;
    var m := Mask(cfg, os, args);
    SelectSplitsHead(args, m, true);
    SelectSplitsHead(args, m, false);
    if args == [] {
    } else if args[0] == TERMINATOR {
      assert m[1..] == seq(|args| - 1, i => false);
      SelectUniform(args[1..], m[1..], true);
      SelectUniform(args[1..], m[1..], false);
      assert args[1..] + [] == args[1..];
    } else if NonOption(args[0]) && cfg.ordering == RequireOrder {
      NoneSelected(args, m);
    } else if NonOption(args[0]) {
      assert m[1..] == Mask(cfg, os, args[1..]);
      ParseIsStablePartition(cfg, os, args[1..]);
    } else {
      var used := ParseElement(os, cfg.longopts, args[0], Head(args[1..])).1;
      ParseIsStablePartition(cfg, os, args[used..]);
      PartitionAfterOption(args, m, used, Mask(cfg, os, args[used..]));
    }
  }

  lemma NoneSelected(args: seq<string>, mask: seq<bool>)
    requires mask == seq(|args|, i => false)
    ensures Select(args, mask, true) == [] && Select(args, mask, false) == args
  {
    hide Select;
    SelectUniform(args, mask, true);
    SelectUniform(args, mask, false);
  }

  lemma SelectSplitsHead(args: seq<string>, mask: seq<bool>, b: bool)
    requires |mask| == |args|
    ensures Select(args, mask, b)
         == if args == [] then [] else (if mask[0] == b then [args[0]] else []) + Select(args[1..], mask[1..], b)
  {
  }

  lemma PartitionAfterOption(args: seq<string>, mask: seq<bool>, used: nat, rest: seq<bool>)
    requires used <= |args| && |rest| == |args| - used && mask == seq(used, i => true) + rest
    ensures Select(args, mask, true) == args[..used] + Select(args[used..], rest, true)
    ensures Select(args, mask, false) == Select(args[used..], rest, false)
  {
    hide Select;
    assert mask[used..] == rest && mask[..used] == seq(used, i => true);
    SelectSplits(args, mask, true, used);
    SelectSplits(args, mask, false, used);
    SelectUniform(args[..used], mask[..used], true);
    SelectUniform(args[..used], mask[..used], false);
  }

  /** Where the parse ends: at the terminator, at a non-option where order is required, or behind everything. */
  function EndsAt(cfg: Config, os: string, args: seq<string>): (e: nat)
    ensures e <= |args|
    decreases |args|
  {
    if args == [] || args[0] == TERMINATOR then 0
    else if NonOption(args[0]) then if cfg.ordering == RequireOrder then 0 else 1 + EndsAt(cfg, os, args[1..])
    else
      var used := ParseElement(os, cfg.longopts, args[0], Head(args[1..])).1;
      used + EndsAt(cfg, os, args[used..])
  }

  ghost predicate EndedAt(cfg: Config, args: seq<string>, mask: seq<bool>, e: nat)
    requires |mask| == |args|
  {
    && e <= |args|
    && (forall k :: 0 <= k < e && !mask[k] ==> cfg.ordering == Permute && NonOption(args[k]))
    && (forall k :: e < k < |args| ==> !mask[k])
    && (e < |args| ==> if mask[e] then args[e] == TERMINATOR
                       else cfg.ordering == RequireOrder && NonOption(args[e]))
  }

  /**
   * What is left over before the place where the parse ends looks like a non-option, and only permuting
   * leaves anything there. At that place stands the terminator, which is used up, or, where order is
   * required, a non-option. Everything behind it is left over, whatever it looks like.
   */
  lemma {:induction false} LeftoversAreNonOptions(cfg: Config, os: string, args: seq<string>)
    ensures EndedAt(cfg, args, Mask(cfg, os, args), EndsAt(cfg, os, args))
    decreases |args|
  {
    hide EndedAt, ParseElement;
    if args == [] || args[0] == TERMINATOR || (NonOption(args[0]) && cfg.ordering == RequireOrder) {
      EndsHere(cfg, os, args);
    } else {
      var used := if NonOption(args[0]) then 1 else ParseElement(os, cfg.longopts, args[0], Head(args[1..])).1;
      LeftoversAreNonOptions(cfg, os, args[used..]);
      var rest, e := Mask(cfg, os, args[used..]), EndsAt(cfg, os, args[used..]);
      if NonOption(args[0]) {
        EndsBehindOne(cfg, args, rest, e);
      } else {
        EndsBehind(cfg, args, used, rest, e);
      }
    }
  }

  lemma EndsHere(cfg: Config, os: string, args: seq<string>)
    requires args == [] || args[0] == TERMINATOR || (NonOption(args[0]) && cfg.ordering == RequireOrder)
    ensures EndedAt(cfg, args, Mask(cfg, os, args), EndsAt(cfg, os, args))
  {
  }

  lemma EndsBehindOne(cfg: Config, args: seq<string>, rest: seq<bool>, e: nat)
    requires args != [] && |rest| == |args| - 1 && EndedAt(cfg, args[1..], rest, e)
    requires NonOption(args[0]) && cfg.ordering != RequireOrder
    ensures EndedAt(cfg, args, [cfg.ordering == ReturnInOrder] + rest, 1 + e)
  {
    var mask := [cfg.ordering == ReturnInOrder] + rest;
    assert forall k :: 1 <= k < |args| ==> args[k] == args[1..][k - 1] && mask[k] == rest[k - 1];
  }

  lemma EndsBehind(cfg: Config, args: seq<string>, used: nat, rest: seq<bool>, e: nat)
    requires used <= |args| && |rest| == |args| - used && EndedAt(cfg, args[used..], rest, e)
    ensures EndedAt(cfg, args, seq(used, i => true) + rest, used + e)
  {
    var mask := seq(used, i => true) + rest;
    assert forall k :: used <= k < |args| ==> args[k] == args[used..][k - used] && mask[k] == rest[k - used];
  }

  /** Only permuting changes the order: otherwise what is used up comes first as it is. */
  lemma {:induction false} OrderKeptUnlessPermuting(cfg: Config, os: string, args: seq<string>)
    requires cfg.ordering != Permute
    ensures var p := ParseArgs(cfg, os, args); p.opts + p.nons == args
    decreases |args|
  {
    hide ParseElement, ParseArgs, NonOption;
    if args == [] || args[0] == TERMINATOR || (NonOption(args[0]) && cfg.ordering == RequireOrder) {
      NothingToMove(cfg, os, args);
    } else {
      var used := ParseUsesUp(cfg, os, args);
      OrderKeptUnlessPermuting(cfg, os, args[used..]);
      var p := ParseArgs(cfg, os, args[used..]);
      JoinedBehind(args, used, p.opts, p.nons);
    }
  }

  lemma NothingToMove(cfg: Config, os: string, args: seq<string>)
    requires args == [] || args[0] == TERMINATOR || (NonOption(args[0]) && cfg.ordering == RequireOrder)
    ensures var p := ParseArgs(cfg, os, args); p.opts + p.nons == args
  {
  }

  lemma JoinedBehind(args: seq<string>, used: nat, a: seq<string>, b: seq<string>)
    requires used <= |args| && a + b == args[used..]
    ensures (args[..used] + a) + b == args
  {
    assert args[..used] + (a + b) == (args[..used] + a) + b;
  }

  /** Unless the run permutes, the parse uses up what is in front and goes on behind it. */
  lemma ParseUsesUp(cfg: Config, os: string, args: seq<string>) returns (used: nat)
    requires cfg.ordering != Permute && args != [] && args[0] != TERMINATOR
    requires !(NonOption(args[0]) && cfg.ordering == RequireOrder)
    ensures 0 < used <= |args|
    ensures var p, q := ParseArgs(cfg, os, args), ParseArgs(cfg, os, args[used..]);
            p.opts == args[..used] + q.opts && p.nons == q.nons
  {
    hide ParseElement;
    used := if NonOption(args[0]) then 1 else ParseElement(os, cfg.longopts, args[0], Head(args[1..])).1;
    if NonOption(args[0]) { assert args[..1] == [args[0]]; }
  }

  // ----- equivalent spellings -----

  /** `-ab` means `-a -b` when `a` takes no argument. */
  lemma ClusterLaw(cfg: Config, os: string, c: char, text: string, tail: seq<string>)
    requires KindOf(os, c) == NoArg && c != '-' && text != "" && text[0] != '-'
    ensures ParseArgs(cfg, os, ["-" + [c] + text] + tail).events
         == ParseArgs(cfg, os, ["-" + [c], "-" + text] + tail).events
  {
    var joined, first, second := "-" + [c] + text, "-" + [c], "-" + text;
    hide ParseElement, ParseArgs;
    assert second[0] == '-' && second[1] == text[0] && joined[1] == first[1] == c;
    ClusterElements(os, cfg.longopts, c, text, Head(tail));
    var (evs, used) := ParseElement(os, cfg.longopts, second, Head(tail));
    var e := Plain(CharCode(c), None);
    ParseOption(cfg, os, joined, tail);
    ParseOption(cfg, os, second, tail);
    ParseOption(cfg, os, first, [second] + tail);
    assert [first] + ([second] + tail) == [first, second] + tail;
    assert ([joined] + tail)[used..] == tail[used - 1..] && ([second] + tail)[used..] == tail[used - 1..];
    assert ([first] + ([second] + tail))[1..] == [second] + tail;
    var p := ParseArgs(cfg, os, tail[used - 1..]);
    assert [e] + (evs + p.events) == ([e] + evs) + p.events;
  }

  lemma ClusterElements(os: string, longopts: Option<seq<LongOpt>>, c: char, text: string, following: Option<string>)
    requires KindOf(os, c) == NoArg && c != '-' && text != "" && text[0] != '-'
    ensures !NonOption("-" + text) && "-" + text != TERMINATOR
    ensures var e := Plain(CharCode(c), None);
            var r := ParseElement(os, longopts, "-" + text, following);
            && ParseElement(os, longopts, "-" + [c] + text, following) == ([e] + r.0, r.1)
            && ParseElement(os, longopts, "-" + [c], Some("-" + text)) == ([e], 1)
  {
    assert ("-" + [c] + text)[1..] == [c] + text && ("-" + [c])[1..] == [c] && ("-" + text)[1..] == text;
    assert ([c] + text)[1..] == text && [c][1..] == "";
    assert ("-" + text)[1] == text[0];
  }

  /** `-ofile` means `-o file` when `o` requires an argument. */
  lemma AttachedArgumentLaw(cfg: Config, os: string, c: char, text: string, tail: seq<string>)
    requires KindOf(os, c) == Required && c != '-' && text != ""
    ensures ParseArgs(cfg, os, ["-" + [c] + text] + tail).events
         == ParseArgs(cfg, os, ["-" + [c], text] + tail).events
  {
    hide ParseArgs, ParseElement;
    var joined, first := "-" + [c] + text, "-" + [c];
    AttachedElements(os, cfg.longopts, c, text, Head(tail));
    ParseOption(cfg, os, joined, tail);
    ParseOption(cfg, os, first, [text] + tail);
    assert [first] + ([text] + tail) == [first, text] + tail;
    assert ([joined] + tail)[1..] == tail && ([first] + ([text] + tail))[2..] == tail;
  }

  lemma AttachedElements(os: string, longopts: Option<seq<LongOpt>>, c: char, text: string, following: Option<string>)
    requires KindOf(os, c) == Required && c != '-' && text != ""
    ensures var joined, first := "-" + [c] + text, "-" + [c];
            && !NonOption(joined) && joined != TERMINATOR && !NonOption(first) && first != TERMINATOR
            && var e := Plain(CharCode(c), Some(text));
               ParseElement(os, longopts, joined, following) == ([e], 1)
               && ParseElement(os, longopts, first, Some(text)) == ([e], 2)
  {
    var joined, first := "-" + [c] + text, "-" + [c];
    assert joined[1..] == [c] + text && first[1..] == [c] && ([c] + text)[1..] == text;
  }

  /** `--name=value` means `--name value` when the option requires an argument. */
  lemma LongArgumentLaw(cfg: Config, os: string, word: string, value: string, tail: seq<string>, i: nat)
    requires word != "" && '=' !in word && cfg.longopts.Some?
    requires LookUp(cfg.longopts.value, word, false) == Found(i) && cfg.longopts.value[i].hasArg == 1
    ensures ParseArgs(cfg, os, ["--" + word + "=" + value] + tail).events
         == ParseArgs(cfg, os, ["--" + word, value] + tail).events
  {
    var joined, first := "--" + word + "=" + value, "--" + word;
    var text := word + "=" + value;
    assert joined[2..] == text && first[2..] == word;
    assert text[|word|] == '=';
    assert IndexOf(word, '=') == |word| && IndexOf(text, '=') == |word|;
    assert text[..|word|] == word && text[|word| + 1..] == value && word[..|word|] == word;
    ParseOption(cfg, os, joined, tail);
    ParseOption(cfg, os, first, [value] + tail);
    assert [first] + ([value] + tail) == [first, value] + tail;
    assert ([joined] + tail)[1..] == tail && ([first] + ([value] + tail))[2..] == tail;
  }

  lemma ParseOption(cfg: Config, os: string, elem: string, tail: seq<string>)
    requires !NonOption(elem) && elem != TERMINATOR
    ensures var r := ParseElement(os, cfg.longopts, elem, Head(tail));
            r.1 <= 1 + |tail| &&
            ParseArgs(cfg, os, [elem] + tail).events == r.0 + ParseArgs(cfg, os, ([elem] + tail)[r.1..]).events
  {
    hide ParseElement;
    assert ([elem] + tail)[1..] == tail && ([elem] + tail)[0] == elem;
  }
}
