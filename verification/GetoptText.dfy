/** What command lines mean, from the text of the option string and of the table of long options alone. */
module GetoptText {
  import opened Common
  import opened GetoptLookup
  import opened GetoptScan
  import opened GetoptLaws
  import opened Getopt

  /** What an element adds in front of the parse of what follows it. */
  function Then(e: Event, used: seq<string>, rest: Parse): Parse {
    Parse([e] + rest.events, used + rest.opts, rest.nons)
  }

  /** An option character is returned as a signed `char`. */
  lemma CodeOf(c: char)
    ensures c as int < 128 ==> CharCode(c) == c as int
    ensures 128 <= c as int < 256 ==> CharCode(c) == c as int - 256
  {
  }

  // ----- short options -----

  /** The option string up to the first `c`, the colons behind it, and the rest. */
  predicate Declared(os: string, pre: string, c: char, mark: string, post: string) {
    && os == pre + [c] + mark + post && c !in pre && c != ':' && c != '-'
    && (mark == "" || mark == ":" || mark == "::") && (mark == "::" || post == "" || post[0] != ':')
  }

  lemma DeclaredKind(os: string, pre: string, c: char, mark: string, post: string)
    requires Declared(os, pre, c, mark, post)
    ensures KindOf(os, c) == if mark == "" then NoArg else if mark == ":" then Required else Optional
  {
    var k := |pre|;
    assert os[k] == c && forall j :: 0 <= j < k ==> os[j] == pre[j];
    FirstIndex(os, c, k);
    assert forall j :: 0 <= j < |mark| ==> os[k + 1 + j] == mark[j];
    assert forall j :: 0 <= j < |post| ==> os[k + 1 + |mark| + j] == post[j];
  }

  lemma FirstIndex(s: string, c: char, k: nat)
    requires k < |s| && s[k] == c && forall j :: 0 <= j < k ==> s[j] != c
    ensures IndexOf(s, c) == k
  {
  }

  /** A short option on its own takes the next element exactly if one colon stands behind it. */
  lemma ShortAlone(cfg: Config, os: string, pre: string, c: char, mark: string, post: string, x: string,
                   tail: seq<string>)
    requires Declared(os, pre, c, mark, post)
    ensures ParseArgs(cfg, os, ["-" + [c], x] + tail) ==
            if mark == ":" then
              Then(Event(CharCode(c), Some(x), None, None, None), ["-" + [c], x], ParseArgs(cfg, os, tail))
            else
              Then(Event(CharCode(c), None, None, None, None), ["-" + [c]], ParseArgs(cfg, os, [x] + tail))
  {
    hide ParseArgs, KindOf;
    DeclaredKind(os, pre, c, mark, post);
    var elem, args := "-" + [c], ["-" + [c], x] + tail;
    assert elem[1..] == [c] && [c][1..] == "" && args[1..] == [x] + tail && args[2..] == tail;
    ParseOptionElement(cfg, os, args);
    assert args[..1] == [elem] && args[..2] == [elem, x];
  }

  /** At the end of the command line the argument is missing: `:` is returned if the option string starts with one. */
  lemma ShortAtEnd(cfg: Config, os: string, pre: string, c: char, mark: string, post: string)
    requires Declared(os, pre, c, mark, post)
    ensures ParseArgs(cfg, os, ["-" + [c]]) ==
            if mark == ":" then
              Parse([Event(if os[0] == ':' then ':' as int else '?' as int, None, Some(CharCode(c)), None, None)],
                    ["-" + [c]], [])
            else
              Parse([Event(CharCode(c), None, None, None, None)], ["-" + [c]], [])
  {
    hide KindOf;
    DeclaredKind(os, pre, c, mark, post);
    var elem: string := "-" + [c];
    var args: seq<string> := [elem];
    assert elem[1..] == [c] && [c][1..] == "" && args[1..] == [] && args[..1] == args;
    ParseOptionElement(cfg, os, args);
  }

  /** Text behind the character is its argument if colons stand behind the character, and more options if not. */
  lemma ShortAttached(cfg: Config, os: string, pre: string, c: char, mark: string, post: string, text: string,
                      tail: seq<string>)
    requires Declared(os, pre, c, mark, post) && text != "" && text[0] != '-'
    ensures var p := ParseArgs(cfg, os, ["-" + [c] + text] + tail);
            if mark == "" then
              p.events == [Event(CharCode(c), None, None, None, None)] + ParseArgs(cfg, os, ["-" + text] + tail).events
            else
              p == Then(Event(CharCode(c), Some(text), None, None, None), ["-" + [c] + text], ParseArgs(cfg, os, tail))
  {
    hide ParseArgs, KindOf;
    DeclaredKind(os, pre, c, mark, post);
    var elem := "-" + [c] + text;
    var args := [elem] + tail;
    assert elem[1..] == [c] + text && ([c] + text)[1..] == text && args[1..] == tail && elem[1] == c;
    if mark == "" {
      ClusterLaw(cfg, os, c, text, tail);
      ShortAlone(cfg, os, pre, c, mark, post, "-" + text, tail);
    } else {
      ParseOptionElement(cfg, os, args);
      assert args[..1] == [elem];
    }
  }

  /** A character that the option string does not declare, or a colon, is reported and passed over. */
  lemma Undeclared(cfg: Config, os: string, c: char, tail: seq<string>)
    requires (c !in os || c == ':') && c != '-'
    ensures ParseArgs(cfg, os, ["-" + [c]] + tail)
         == Then(Event('?' as int, None, Some(CharCode(c)), None, None), ["-" + [c]], ParseArgs(cfg, os, tail))
  {
    hide ParseArgs;
    var elem, args := "-" + [c], ["-" + [c]] + tail;
    assert elem[1..] == [c] && [c][1..] == "" && args[1..] == tail && args[..1] == [elem];
    NotThere(os, c);
    ParseOptionElement(cfg, os, args);
  }

  /** Also inside a cluster: the rest of it is read as if it stood alone. */
  lemma UndeclaredInCluster(cfg: Config, os: string, c: char, text: string, tail: seq<string>)
    requires (c !in os || c == ':') && c != '-' && text != "" && text[0] != '-'
    ensures ParseArgs(cfg, os, ["-" + [c] + text] + tail).events
         == [Event('?' as int, None, Some(CharCode(c)), None, None)] + ParseArgs(cfg, os, ["-" + text] + tail).events
  {
    hide ParseArgs;
    var elem, rest := "-" + [c] + text, "-" + text;
    var args, more := [elem] + tail, [rest] + tail;
    assert elem[1..] == [c] + text && ([c] + text)[1..] == text && args[1..] == tail && elem[1] == c;
    assert rest[1..] == text && more[1..] == tail && rest[1] == text[0];
    NotThere(os, c);
    ParseOptionElement(cfg, os, args);
    ParseOptionElement(cfg, os, more);
    var r := ParseCluster(os, text, Head(tail));
    assert args[r.1..] == more[r.1..];
    var e := Failing('?' as int, CharCode(c));
    var p := ParseArgs(cfg, os, args[r.1..]);
    assert ([e] + r.0) + p.events == [e] + (r.0 + p.events);
  }

  lemma NotThere(s: string, c: char)
    ensures c !in s ==> IndexOf(s, c) == |s|
  {
  }

  lemma ParseOptionElement(cfg: Config, os: string, args: seq<string>)
    requires args != [] && !NonOption(args[0]) && args[0] != TERMINATOR
    ensures var r := ParseElement(os, cfg.longopts, args[0], Head(args[1..]));
            && r.1 <= |args|
            && var p := ParseArgs(cfg, os, args[r.1..]);
               ParseArgs(cfg, os, args) == Parse(r.0 + p.events, args[..r.1] + p.opts, p.nons)
  {
    hide ParseElement;
  }

  // ----- what is no option -----

  /** An element that is a dash, or does not start with one, is no option; each ordering treats it in its own way. */
  lemma Positional(cfg: Config, os: string, x: string, tail: seq<string>)
    requires x == "-" || x == "" || x[0] != '-'
    ensures var p := ParseArgs(cfg, os, tail);
            ParseArgs(cfg, os, [x] + tail) ==
            match cfg.ordering
            case RequireOrder => Parse([], [], [x] + tail)
            case Permute => Parse(p.events, p.opts, [x] + p.nons)
            case ReturnInOrder => Then(Event(1, Some(x), None, None, None), [x], p)
  {
    assert ([x] + tail)[1..] == tail && ([x] + tail)[0] == x;
  }

  /** Two dashes alone end the options in every ordering. */
  lemma EndOfOptions(cfg: Config, os: string, tail: seq<string>)
    ensures ParseArgs(cfg, os, ["--"] + tail) == Parse([], ["--"], tail)
    ensures ParseArgs(cfg, os, []) == Parse([], [], [])
  {
    assert (["--"] + tail)[1..] == tail;
  }

  // ----- long options -----

  /** The first exact name; or, if there is none, the first that starts with the word, if later ones agree with it. */
  ghost predicate Chooses(opts: seq<LongOpt>, word: string, i: nat) {
    && i < |opts|
    && ((opts[i].name == word && forall j :: 0 <= j < i ==> opts[j].name != word) ||
        ((forall j :: 0 <= j < |opts| ==> opts[j].name != word)
         && word <= opts[i].name && (forall j :: 0 <= j < i ==> !(word <= opts[j].name))
         && (forall j :: i < j < |opts| && word <= opts[j].name ==>
               opts[j].hasArg == opts[i].hasArg && opts[j].flag == opts[i].flag && opts[j].val == opts[i].val)))
  }

  /** No name starts with the word; or none is the word, and two that start with it mean different things. */
  ghost predicate ChoosesNone(opts: seq<LongOpt>, word: string) {
    || (forall j :: 0 <= j < |opts| ==> !(word <= opts[j].name))
    || ((forall j :: 0 <= j < |opts| ==> opts[j].name != word)
        && exists i: nat, j: nat :: i < j < |opts| && word <= opts[i].name && word <= opts[j].name
             && (forall k :: 0 <= k < i ==> !(word <= opts[k].name))
             && !(opts[j].hasArg == opts[i].hasArg && opts[j].flag == opts[i].flag && opts[j].val == opts[i].val))
  }

  lemma ChoiceIsFound(opts: seq<LongOpt>, word: string)
    ensures forall i: nat :: Chooses(opts, word, i) <==> LookUp(opts, word, false) == Found(i)
    ensures ChoosesNone(opts, word) <==> !LookUp(opts, word, false).Found?
  {
  }

  /** What a chosen option returns, and what it stores. */
  function Returned(o: LongOpt, i: nat, arg: Option<string>): Event {
    match o.flag
    case None => Event(o.val, arg, None, Some(i), None)
    case Some(f) => Event(0, arg, None, Some(i), Some((f, o.val)))
  }

  /** A long option takes the next element exactly if it requires an argument; at the end that is missing. */
  lemma LongAlone(cfg: Config, os: string, opts: seq<LongOpt>, word: string, i: nat, tail: seq<string>)
    requires cfg.longopts == Some(opts) && word != "" && '=' !in word && Chooses(opts, word, i)
    ensures var elem, o := "--" + word, opts[i];
            ParseArgs(cfg, os, [elem] + tail) ==
            if o.hasArg != 1 then Then(Returned(o, i, None), [elem], ParseArgs(cfg, os, tail))
            else if tail != [] then
              Then(Returned(o, i, Some(tail[0])), [elem, tail[0]], ParseArgs(cfg, os, tail[1..]))
            else
              Parse([Event(if os != "" && os[0] == ':' then ':' as int else '?' as int, None, Some(o.val), None, None)],
                    [elem], [])
  {
    hide ParseArgs, LookUp, Chooses;
    var elem := "--" + word;
    var args := [elem] + tail;
    assert elem[2..] == word && args[1..] == tail && args[..1] == [elem];
    assert tail != [] ==> args[2..] == tail[1..] && args[..2] == [elem, tail[0]];
    NotThere(word, '=');
    assert word[..|word|] == word;
    ChoiceIsFound(opts, word);
    ParseOptionElement(cfg, os, args);
    EndOfOptions(cfg, os, []);
  }

  /** The text behind `=` is the argument, unless the option takes none. */
  lemma LongWithText(cfg: Config, os: string, opts: seq<LongOpt>, word: string, i: nat, text: string, tail: seq<string>)
    requires cfg.longopts == Some(opts) && '=' !in word && Chooses(opts, word, i)
    ensures var elem, o := "--" + word + "=" + text, opts[i];
            ParseArgs(cfg, os, [elem] + tail) ==
            Then(if o.hasArg != 0 then Returned(o, i, Some(text)) else Event('?' as int, None, Some(o.val), None, None),
                 [elem], ParseArgs(cfg, os, tail))
  {
    hide ParseArgs, LookUp, Chooses;
    var elem := "--" + word + "=" + text;
    var args, rest := [elem] + tail, word + "=" + text;
    assert elem[2..] == rest && args[1..] == tail && args[..1] == [elem];
    FirstIndex(rest, '=', |word|);
    assert rest[..|word|] == word && rest[|word| + 1..] == text;
    ChoiceIsFound(opts, word);
    ParseOptionElement(cfg, os, args);
  }

  /** A word that chooses nothing is reported with 0, whether or not text follows it. */
  lemma LongUnresolved(cfg: Config, os: string, opts: seq<LongOpt>, word: string, rest: string, tail: seq<string>)
    requires cfg.longopts == Some(opts) && '=' !in word && ChoosesNone(opts, word)
    requires word + rest != "" && (rest == "" || rest[0] == '=')
    ensures ParseArgs(cfg, os, ["--" + word + rest] + tail)
         == Then(Event('?' as int, None, Some(0), None, None), ["--" + word + rest], ParseArgs(cfg, os, tail))
  {
    hide ParseArgs, LookUp, ChoosesNone;
    var elem := "--" + word + rest;
    var args, text := [elem] + tail, word + rest;
    assert elem[2..] == text && args[1..] == tail && args[..1] == [elem];
    if rest == "" {
      assert text == word;
      NotThere(word, '=');
    } else {
      FirstIndex(text, '=', |word|);
    }
    assert text[..|word|] == word;
    ChoiceIsFound(opts, word);
    ParseOptionElement(cfg, os, args);
  }

  /** Without a table of long options a second dash is an option character like any other. */
  lemma NoLongOptions(cfg: Config, os: string, text: string, tail: seq<string>)
    requires cfg.longopts == None && '-' !in os && text != "" && text[0] != '-'
    ensures ParseArgs(cfg, os, ["--" + text] + tail).events
         == [Event('?' as int, None, Some('-' as int), None, None)] + ParseArgs(cfg, os, ["-" + text] + tail).events
  {
    hide ParseArgs;
    var elem, rest := "--" + text, "-" + text;
    var args, more := [elem] + tail, [rest] + tail;
    assert elem[1..] == "-" + text && ("-" + text)[1..] == text && args[1..] == tail;
    assert rest[1..] == text && more[1..] == tail && rest[1] == text[0];
    NotThere(os, '-');
    ParseOptionElement(cfg, os, args);
    ParseOptionElement(cfg, os, more);
    var r := ParseCluster(os, text, Head(tail));
    assert args[r.1..] == more[r.1..];
    var e := Failing('?' as int, CharCode('-'));
    var p := ParseArgs(cfg, os, args[r.1..]);
    assert ([e] + r.0) + p.events == [e] + (r.0 + p.events);
  }

  // ----- the prefix of the option string -----

  /** The run that `GetoptLoop` promises for an option string and the environment. */
  ghost function RunOf(optstring: string, posixlyCorrect: bool, longopts: Option<seq<LongOpt>>, args: seq<string>,
                       base: nat): Parse
    requires base <= |args|
  {
    var cfg := Config(InitialOrdering(optstring, posixlyCorrect), longopts);
    Promised(cfg, EffectiveOptions(optstring), optstring, args, base, Start(base))
  }

  /** A first argument that is no option is returned with code 1, or ends the run, or is passed over. */
  lemma PrefixDecides(optstring: string, posixlyCorrect: bool, longopts: Option<seq<LongOpt>>, args: seq<string>,
                      base: nat)
    requires base < |args| && (args[base] == "-" || args[base] == "" || args[base][0] != '-')
    ensures var p := RunOf(optstring, posixlyCorrect, longopts, args, base);
            if optstring != "" && optstring[0] == '-' then
              p.events != [] && p.events[0] == Event(1, Some(args[base]), None, None, None)
            else if (optstring != "" && optstring[0] == '+') || posixlyCorrect then
              p == Parse([], [], args[base..])
            else p.nons != [] && p.nons[0] == args[base]
  {
    hide ParseArgs, DecodeShort, DecodeLong;
    var cfg := Config(InitialOrdering(optstring, posixlyCorrect), longopts);
    var s := Start(base);
    if cfg.ordering != Permute {
      InOrder(cfg, args, s);
      assert [] + args[base..] == args[base..];
    } else {
      FirstSkipped(cfg, EffectiveOptions(optstring), args, base);
      var r := Call(cfg, EffectiveOptions(optstring), args, s);
      assert r.Emit? ==> r.cursor.nons == Reached(cfg, args, s).nons;
    }
  }

  lemma FirstSkipped(cfg: Config, os: string, args: seq<string>, base: nat)
    requires cfg.ordering == Permute && base < |args| && NonOption(args[base])
    ensures var t := Reached(cfg, args, Start(base)); t.nons != [] && t.nons[0] == args[base]
  {
  }

  /** The prefix is no part of the option string that the first call reads. */
  lemma PrefixIsDropped(optstring: string, posixlyCorrect: bool, longopts: Option<seq<LongOpt>>, args: seq<string>,
                        base: nat)
    requires base <= |args|
    ensures var os := if optstring != "" && optstring[0] in "+-" then optstring[1..] else optstring;
            var cfg := Config(InitialOrdering(optstring, posixlyCorrect), longopts);
            var p, q := RunOf(optstring, posixlyCorrect, longopts, args, base), ParseArgs(cfg, os, args[base..]);
            if q.events == [] then p == q else p.events != [] && p.events[0] == q.events[0]
  {
    hide ParseArgs, Call, Remaining;
    var os := EffectiveOptions(optstring);
    var cfg := Config(InitialOrdering(optstring, posixlyCorrect), longopts);
    CallIsParsing(cfg, os, args, base, Start(base));
    RemainingAtStart(cfg, os, args, base);
  }
}
