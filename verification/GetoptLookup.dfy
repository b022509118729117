/** The table of long options and the search for an exact or abbreviated name. */
module GetoptLookup {
  import opened Common

  datatype LongOpt = LongOpt(name: string, hasArg: int, flag: Option<nat>, val: int)

  datatype Lookup = Found(index: nat) | Ambiguous | NotFound

  predicate Conflicts(p: LongOpt, q: LongOpt, longOnly: bool) {
    longOnly || p.hasArg != q.hasArg || p.flag != q.flag || p.val != q.val
  }

  predicate IsFirstExact(opts: seq<LongOpt>, word: string, i: nat) {
    i < |opts| && opts[i].name == word && forall j :: 0 <= j < i ==> opts[j].name != word
  }

  predicate IsFirstPrefix(opts: seq<LongOpt>, word: string, i: nat) {
    i < |opts| && word <= opts[i].name && forall j :: 0 <= j < i ==> !(word <= opts[j].name)
  }

  predicate NoExact(opts: seq<LongOpt>, word: string) {
    forall j :: 0 <= j < |opts| ==> opts[j].name != word
  }

  predicate NoPrefix(opts: seq<LongOpt>, word: string) {
    forall j :: 0 <= j < |opts| ==> !(word <= opts[j].name)
  }

  predicate HasConflict(opts: seq<LongOpt>, word: string, longOnly: bool, first: nat)
    requires first < |opts|
  {
    exists j :: first < j < |opts| && word <= opts[j].name && Conflicts(opts[first], opts[j], longOnly)
  }

  /** What the documentation promises of a long-option word. */
  ghost predicate Resolves(opts: seq<LongOpt>, word: string, longOnly: bool, r: Lookup) {
    match r
    case Found(i) =>
      IsFirstExact(opts, word, i) ||
      (NoExact(opts, word) && IsFirstPrefix(opts, word, i) && !HasConflict(opts, word, longOnly, i))
    case Ambiguous =>
      NoExact(opts, word) && exists i: nat :: IsFirstPrefix(opts, word, i) && HasConflict(opts, word, longOnly, i)
    case NotFound => NoPrefix(opts, word)
  }

  function FirstExact(opts: seq<LongOpt>, word: string): (r: Option<nat>)
    ensures r.Some? ==> IsFirstExact(opts, word, r.value)
    ensures r.None? ==> NoExact(opts, word)
  {
    if opts == [] then None
    else if opts[0].name == word then Some(0)
    else match FirstExact(opts[1..], word)
      case None => None
      case Some(i) => Some(i + 1)
  }

  function FirstPrefix(opts: seq<LongOpt>, word: string): (r: Option<nat>)
    ensures r.Some? ==> IsFirstPrefix(opts, word, r.value)
    ensures r.None? ==> NoPrefix(opts, word)
  {
    if opts == [] then None
    else if word <= opts[0].name then Some(0)
    else match FirstPrefix(opts[1..], word)
      case None => None
      case Some(i) => Some(i + 1)
  }

  /** The answer to a lookup, as a function of the table. */
  function LookUp(opts: seq<LongOpt>, word: string, longOnly: bool): (r: Lookup)
    ensures Resolves(opts, word, longOnly, r)
    ensures r.Found? ==> r.index < |opts|
  {
    match FirstExact(opts, word)
    case Some(i) => Found(i)
    case None =>
      match FirstPrefix(opts, word)
      case None => NotFound
      case Some(i) => if HasConflict(opts, word, longOnly, i) then Ambiguous else Found(i)
  }

  /** No word resolves in two ways: `Resolves` determines the answer. */
  lemma ResolvesIsUnique(opts: seq<LongOpt>, word: string, longOnly: bool, r: Lookup, r': Lookup)
    requires Resolves(opts, word, longOnly, r) && Resolves(opts, word, longOnly, r')
    ensures r == r'
  {
    forall i: nat | IsFirstExact(opts, word, i)
      ensures !NoExact(opts, word) && word <= opts[i].name && !NoPrefix(opts, word)
    {
      assert opts[i].name == word;
    }
    forall i: nat, j: nat | IsFirstPrefix(opts, word, i) && IsFirstPrefix(opts, word, j)
      ensures i == j && !NoPrefix(opts, word)
    {
    }
    forall i: nat, j: nat | IsFirstExact(opts, word, i) && IsFirstExact(opts, word, j)
      ensures i == j
    {
    }
  }

  /** The table search as the program runs it: one pass that stops at an exact match. */
  method FindLong(opts: seq<LongOpt>, word: string, longOnly: bool) returns (r: Lookup)
    ensures r == LookUp(opts, word, longOnly)
    ensures Resolves(opts, word, longOnly, r)
  {
    var pfound: Option<nat> := None;
    var exact, ambig := false, false;
    var i := 0;
    while i < |opts| && !exact
      invariant i <= |opts|
      invariant exact ==> pfound.Some? && IsFirstExact(opts, word, pfound.value)
      invariant !exact ==> forall j :: 0 <= j < i ==> opts[j].name != word
      invariant !exact && pfound.None? ==> !ambig && forall j :: 0 <= j < i ==> !(word <= opts[j].name)
      invariant !exact && pfound.Some? ==> pfound.value < i && IsFirstPrefix(opts, word, pfound.value)
      invariant !exact && pfound.Some? ==>
                  (ambig <==> exists j :: pfound.value < j < i && word <= opts[j].name
                                          && Conflicts(opts[pfound.value], opts[j], longOnly))
      decreases |opts| - i, !exact
    {
      var p := opts[i];
      if word <= p.name {
        if |word| == |p.name| {
          pfound, exact := Some(i), true;
        } else if pfound == None {
          pfound := Some(i);
        } else if Conflicts(opts[pfound.value], p, longOnly) {
          ambig := true;
        }
      }
      if !exact { i := i + 1; }
    }
    if exact {
      r := Found(pfound.value);
    } else if pfound == None {
      r := NotFound;
    } else if ambig {
      r := Ambiguous;
    } else {
      r := Found(pfound.value);
    }
    ResolvesIsUnique(opts, word, longOnly, r, LookUp(opts, word, longOnly));
  }
}
