/**
 * Reference-counted objects shared by threads. A release is not one step: after the atomic decrement
 * the last thread still runs the finaliser, destroys the lock and frees the memory, while the other
 * threads go on.
 */
module RefCount {
  import opened Common

  /** Where a thread stands inside `refc_object_dec`. */
  datatype Phase = Outside | Finalising | Uniniting | Freeing

  /** The object, the references each thread holds, and what has happened: how often the finaliser
      ran, how often the handle was closed, and whether freed memory was touched. */
  datatype State = State(refc: int, refs: seq<nat>, phases: seq<Phase>, handle: bool, finalised: nat, closed: nat,
                         lockAlive: bool, freed: bool, touchedFreed: bool)

  datatype Action =
    | Retain(t: nat)
    | Release(t: nat)
    | Hand(t: nat, to: nat)   // pass a reference to another thread
    | Continue(t: nat)        // the next step inside refc_object_dec

  /** A thread may use the object only through a reference it holds. */
  predicate Enabled(s: State, a: Action) {
    && |s.phases| == |s.refs| && a.t < |s.refs|
    && match a
       case Continue(t) => s.phases[t] != Outside
       case Hand(t, to) => to < |s.refs| && s.phases[t] == Outside && s.refs[t] > 0
       case _ => s.phases[a.t] == Outside && s.refs[a.t] > 0
  }

  function Step(s: State, a: Action): State
    requires Enabled(s, a)
  {
    var s := if a.Hand? then s else s.(touchedFreed := s.touchedFreed || s.freed);
    match a
    case Retain(t) => s.(refc := s.refc + 1, refs := s.refs[t := s.refs[t] + 1])
    case Release(t) =>
      var s := s.(refc := s.refc - 1, refs := s.refs[t := s.refs[t] - 1]);
      if s.refc <= 0 then s.(phases := s.phases[t := Finalising]) else s
    case Hand(t, to) =>
      var refs := s.refs[t := s.refs[t] - 1];
      s.(refs := refs[to := refs[to] + 1])
    case Continue(t) =>
      match s.phases[t]
      case Finalising =>
        s.(finalised := s.finalised + 1, closed := s.closed + (if s.handle then 1 else 0),
           phases := s.phases[t := Uniniting])
      case Uniniting => s.(lockAlive := false, phases := s.phases[t := Freeing])
      case Freeing => s.(freed := true, phases := s.phases[t := Outside])
  }

  /** A new object has one reference, held by its creator. */
  ghost predicate Created(s: State, creator: nat) {
    && creator < |s.refs| == |s.phases|
    && (forall t :: 0 <= t < |s.refs| ==> s.refs[t] == (if t == creator then 1 else 0) && s.phases[t] == Outside)
    && s.refc == 1 && s.finalised == 0 && s.closed == 0 && s.lockAlive && !s.freed && !s.touchedFreed
  }

  function Sum(xs: seq<nat>): (n: nat) {
    if xs == [] then 0 else xs[0] + Sum(xs[1..])
  }

  lemma {:induction false} SumUpdate(xs: seq<nat>, i: nat, x: nat)
    requires i < |xs|
    ensures Sum(xs[i := x]) == Sum(xs) - xs[i] + x
  {
    if i == 0 {
      assert xs[0 := x][1..] == xs[1..];
    } else {
      SumUpdate(xs[1..], i - 1, x);
      assert xs[i := x][1..] == xs[1..][i - 1 := x];
    }
  }

  lemma {:induction false} SumIsZero(xs: seq<nat>)
    ensures Sum(xs) == 0 <==> forall i :: 0 <= i < |xs| ==> xs[i] == 0
  {
    if xs != [] {
      SumIsZero(xs[1..]);
      assert forall i :: 0 < i < |xs| ==> xs[i] == xs[1..][i - 1];
      assert forall i :: 0 <= i < |xs[1..]| ==> xs[1..][i] == xs[i + 1];
    }
  }

  predicate Quiet(s: State) {
    forall t :: 0 <= t < |s.phases| ==> s.phases[t] == Outside
  }

  /** Thread `t` is the only one inside the tail of a release. */
  predicate OnlyCleaner(s: State, t: nat) {
    t < |s.phases| && s.phases[t] != Outside && forall u :: 0 <= u < |s.phases| && u != t ==> s.phases[u] == Outside
  }

  ghost predicate Alive(s: State) {
    s.refc > 0 && Quiet(s) && s.finalised == 0 && s.closed == 0 && s.lockAlive && !s.freed
  }

  ghost predicate Dying(s: State, t: nat) {
    && s.refc == 0 && OnlyCleaner(s, t) && !s.freed
    && s.finalised == (if s.phases[t] == Finalising then 0 else 1)
    && s.closed == (if s.handle then s.finalised else 0)
    && (s.lockAlive <==> s.phases[t] != Freeing)
  }

  ghost predicate Dead(s: State) {
    s.refc == 0 && Quiet(s) && s.finalised == 1 && s.closed == (if s.handle then 1 else 0) && !s.lockAlive && s.freed
  }

  ghost predicate Inv(s: State) {
    && |s.phases| == |s.refs| && s.refc == Sum(s.refs) && !s.touchedFreed
    && (Alive(s) || (exists t :: Dying(s, t)) || Dead(s))
  }

  lemma {:induction false} CreatedIsAlive(s: State, creator: nat)
    requires Created(s, creator)
    ensures Inv(s) && Alive(s)
  {
    var none := seq(|s.refs|, t => 0);
    assert s.refs == none[creator := 1];
    SumIsZero(none);
    SumUpdate(none, creator, 1);
  }

  /** Someone who holds a reference finds the object alive. */
  lemma HoldersFindItAlive(s: State, t: nat)
    requires Inv(s) && t < |s.refs| && s.refs[t] > 0
    ensures Alive(s)
  {
    SumIsZero(s.refs);
  }

  lemma RetainKeepsInv(s: State, t: nat)
    requires Inv(s) && Enabled(s, Retain(t))
    ensures Inv(Step(s, Retain(t)))
  {
    HoldersFindItAlive(s, t);
    SumUpdate(s.refs, t, s.refs[t] + 1);
    assert Alive(Step(s, Retain(t)));
  }

  /** The last release leaves its thread alone with the object. */
  lemma ReleaseKeepsInv(s: State, t: nat)
    requires Inv(s) && Enabled(s, Release(t))
    ensures Inv(Step(s, Release(t)))
  {
    var s' := Step(s, Release(t));
    HoldersFindItAlive(s, t);
    SumUpdate(s.refs, t, s.refs[t] - 1);
    if s'.refc > 0 { assert Alive(s'); } else { assert Dying(s', t); }
  }

  lemma HandKeepsInv(s: State, t: nat, to: nat)
    requires Inv(s) && Enabled(s, Hand(t, to))
    ensures Inv(Step(s, Hand(t, to)))
  {
    HoldersFindItAlive(s, t);
    SumUpdate(s.refs, t, s.refs[t] - 1);
    var refs := s.refs[t := s.refs[t] - 1];
    SumUpdate(refs, to, refs[to] + 1);
    assert Alive(Step(s, Hand(t, to)));
  }

  lemma StepKeepsInv(s: State, a: Action)
    requires Inv(s) && Enabled(s, a)
    ensures Inv(Step(s, a)) && Step(s, a).handle == s.handle
  {
    hide Inv;
    match a
    case Retain(t) => RetainKeepsInv(s, t);
    case Release(t) => ReleaseKeepsInv(s, t);
    case Hand(t, to) => HandKeepsInv(s, t, to);
    case Continue(t) => CleanerGoesOn(s, t);
  }

  lemma CleanerGoesOn(s: State, t: nat)
    requires Inv(s) && t < |s.phases| && s.phases[t] != Outside
    ensures Inv(Step(s, Continue(t)))
  {
    var s' := Step(s, Continue(t));
    var u :| Dying(s, u);
    assert u == t;
    if s.phases[t] == Freeing { assert Dead(s'); } else { assert Dying(s', t); }
  }

  // ----- whole runs -----

  predicate Possible(s: State, run: seq<Action>)
    decreases |run|
  {
    run == [] || (Enabled(s, run[0]) && Possible(Step(s, run[0]), run[1..]))
  }

  function After(s: State, run: seq<Action>): State
    requires Possible(s, run)
    decreases |run|
  {
    if run == [] then s else After(Step(s, run[0]), run[1..])
  }

  lemma {:induction false} RunKeepsInv(s: State, run: seq<Action>)
    requires Inv(s) && Possible(s, run)
    ensures Inv(After(s, run)) && After(s, run).handle == s.handle
    decreases |run|
  {
    if run != [] {
      StepKeepsInv(s, run[0]);
      RunKeepsInv(Step(s, run[0]), run[1..]);
    }
  }

  /**
   * In every interleaving: the count is the number of references held, freed memory is never
   * touched, the finaliser has run at most once and only after the last reference was gone, and once
   * no reference is held and no release is under way, it has run exactly once, an open handle has
   * been closed exactly once, and the memory is free. The finaliser finds the lock in place, and the lock goes
   * before the memory.
   */
  lemma EveryRun(s: State, creator: nat, run: seq<Action>)
    requires Created(s, creator) && Possible(s, run)
    ensures var e := After(s, run);
            && e.refc == Sum(e.refs) && !e.touchedFreed
            && e.finalised <= 1 && (e.finalised > 0 || e.freed ==> Sum(e.refs) == 0)
            && (Quiet(e) && Sum(e.refs) == 0 ==>
                  e.finalised == 1 && e.freed && !e.lockAlive && e.closed == if s.handle then 1 else 0)
            && (Sum(e.refs) > 0 ==> !e.freed && e.closed == 0)
            && (e.finalised == 0 ==> e.lockAlive) && (e.lockAlive ==> !e.freed)
  {
    CreatedIsAlive(s, creator);
    RunKeepsInv(s, run);
  }

  // ----- creating a descriptor -----

  const ENCODING_LEN_MAX := 64

  datatype CreateResult = NoError | ErrFromcode | ErrTocode | ErrSuffix | ErrIconv

  /** How the suffix argument is spelled; other values are invalid. */
  datatype Suffix = NoSuffix | Ignore | Translit | Invalid

  function SuffixText(suffix: Suffix): string {
    match suffix case Ignore => "//IGNORE" case Translit => "//TRANSLIT" case _ => ""
  }

  function ToUpper(s: string): string {
    seq(|s|, i requires 0 <= i < |s| => if 'a' <= s[i] <= 'z' then (s[i] as int - 32) as char else s[i])
  }

  /** Letter by letter. */
  predicate InUpperCase(s: string, t: string) {
    && |t| == |s|
    && forall i :: 0 <= i < |s| ==> t[i] as int == s[i] as int - if 'a' <= s[i] <= 'z' then 32 else 0
  }

  datatype Descriptor = Descriptor(cd: nat, fromcode: string, tocode: string)

  /** The conversion library: it hands out handles, or refuses. */
  class Iconv {
    const supports: (string, string) -> bool
    var issued: nat
    var open: set<nat>

    constructor (supports: (string, string) -> bool)
      ensures this.supports == supports && open == {} && issued == 0
    {
      this.supports := supports;
      issued, open := 0, {};
    }

    ghost predicate Valid()
      reads this
    {
      forall h :: h in open ==> h < issued
    }

    method Open(tocode: string, fromcode: string) returns (cd: Option<nat>)
      requires Valid()
      modifies this
      ensures Valid() && (cd.Some? <==> supports(tocode, fromcode))
      ensures open == if cd.Some? then old(open) + {cd.value} else old(open)
      ensures cd.Some? ==> cd.value !in old(open)
    {
      if !supports(tocode, fromcode) { return None; }
      cd := Some(issued);
      issued := issued + 1;
      open := open + {cd.value};
    }

    /** The finaliser of a descriptor: close the handle if there is one. */
    method Cleanup(cd: Option<nat>)
      requires Valid()
      modifies this`open
      ensures Valid() && open == if cd.Some? then old(open) - {cd.value} else old(open)
    {
      if cd.Some? { open := open - {cd.value}; }
    }

    /** `convd_create`: a failed call leaves nothing open, a successful one exactly its own handle. */
    method Create(fromcode: string, tocode: string, suffix: Suffix) returns (ret: CreateResult, cvd: Option<Descriptor>)
      requires Valid()
      modifies this
      ensures Valid() && (cvd.Some? <==> ret == NoError)
      ensures ret != NoError ==> open == old(open)
      ensures ret == NoError ==>
                && cvd.value.cd !in old(open) && open == old(open) + {cvd.value.cd}
                && InUpperCase(fromcode, cvd.value.fromcode) && InUpperCase(tocode, cvd.value.tocode)
      ensures ret == if !(1 <= |fromcode| <= 64) then ErrFromcode
                     else if !(1 <= |tocode| <= 64) then ErrTocode
                     else if suffix == Invalid then ErrSuffix
                     else
                       var end := match suffix case Ignore => "//IGNORE" case Translit => "//TRANSLIT" case _ => "";
                       if supports(ToUpper(tocode) + end, ToUpper(fromcode)) then NoError else ErrIconv
    {
      if |fromcode| < 1 || |fromcode| > ENCODING_LEN_MAX { return ErrFromcode, None; }
      if |tocode| < 1 || |tocode| > ENCODING_LEN_MAX { return ErrTocode, None; }
      var cd: Option<nat> := None;
      var to, from := ToUpper(tocode), ToUpper(fromcode);
      if suffix == Invalid {
        Cleanup(cd);
        return ErrSuffix, None;
      }
      assert to + "" == to;
      cd := Open(to + SuffixText(suffix), from);
      if cd == None {
        Cleanup(cd);
        return ErrIconv, None;
      }
      return NoError, Some(Descriptor(cd.value, from, to));
    }
  }
}
