/**
 * Conversions by many threads through one descriptor. The descriptor's shift state is shared; each
 * call takes the write lock, resets the state, runs the conversion loop, and gives the lock back on
 * every one of its three ways out. Every lock operation and every call of the library is one step.
 */
module ConvLock {
  import opened Common

  /** One call of the conversion library: what is left of the input, and what it wrote. */
  datatype Outcome = Failed(shift: int) | Progress(rest: seq<byte>, written: seq<byte>, shift: int)

  datatype Library = Library(initial: int, resets: int -> bool, convert: (int, seq<byte>, int) -> Outcome)

  // ----- one conversion on its own -----

  datatype Loop = Running(rest: seq<byte>, out: seq<byte>, room: int, shift: int) | Ended(result: Option<seq<byte>>)

  function Iterate(lib: Library, loop: Loop): Loop {
    if loop.Ended? then loop
    else match lib.convert(loop.shift, loop.rest, loop.room)
      case Failed(_) => Ended(None)
      case Progress(rest, written, shift) =>
        if rest == [] then Ended(Some(loop.out + written))
        else Running(rest, loop.out + written, loop.room - |written|, shift)
  }

  /** The first `n` iterations on `input` from the initial shift state. */
  function Serial(lib: Library, input: seq<byte>, room: int, n: nat): Loop {
    if n == 0 then Running(input, [], room, lib.initial) else Iterate(lib, Serial(lib, input, room, n - 1))
  }

  /** Converting `input` alone, from the initial shift state, ends with `result`. */
  ghost predicate Yields(lib: Library, input: seq<byte>, room: int, result: Option<seq<byte>>) {
    exists n: nat :: Serial(lib, input, room, n) == Ended(result)
  }

  lemma {:induction false} SerialStays(lib: Library, input: seq<byte>, room: int, n: nat, m: nat)
    requires n <= m && Serial(lib, input, room, n).Ended?
    ensures Serial(lib, input, room, m) == Serial(lib, input, room, n)
  {
    if n < m { SerialStays(lib, input, room, n, m - 1); }
  }

  lemma YieldsOne(lib: Library, input: seq<byte>, room: int, a: Option<seq<byte>>, b: Option<seq<byte>>)
    requires Yields(lib, input, room, a) && Yields(lib, input, room, b)
    ensures a == b
  {
    var n: nat :| Serial(lib, input, room, n) == Ended(a);
    var m: nat :| Serial(lib, input, room, m) == Ended(b);
    if n <= m { SerialStays(lib, input, room, n, m); } else { SerialStays(lib, input, room, m, n); }
  }

  // ----- what a conversion yields -----

  /** Successive calls of the library, each on what the last one left, from its shift state and with the room that is
      left, write the pieces `ws`; only the last call leaves nothing. */
  ghost predicate Writes(lib: Library, shift: int, rest: seq<byte>, room: int, ws: seq<seq<byte>>)
    decreases |ws|
  {
    && ws != []
    && var r := lib.convert(shift, rest, room);
       && r.Progress? && r.written == ws[0]
       && if |ws| == 1 then r.rest == [] else r.rest != [] && Writes(lib, r.shift, r.rest, room - |ws[0]|, ws[1..])
  }

  /** The same, but the last call fails. */
  ghost predicate Fails(lib: Library, shift: int, rest: seq<byte>, room: int, calls: nat)
    decreases calls
  {
    && calls > 0
    && var r := lib.convert(shift, rest, room);
       if calls == 1 then r.Failed?
       else r.Progress? && r.rest != [] && Fails(lib, r.shift, r.rest, room - |r.written|, calls - 1)
  }

  function Flat(ws: seq<seq<byte>>): seq<byte> { if ws == [] then [] else ws[0] + Flat(ws[1..]) }

  /** The result is all that was written, in order; a failed call gives none. */
  lemma PiecesInOrder(lib: Library, input: seq<byte>, room: int)
    ensures forall ws | Writes(lib, lib.initial, input, room, ws) :: Yields(lib, input, room, Some(Flat(ws)))
    ensures forall calls | Fails(lib, lib.initial, input, room, calls) :: Yields(lib, input, room, None)
  {
    hide Writes, Fails, Yields, Flat;
    assert Serial(lib, input, room, 0) == Running(input, [], room, lib.initial);
    forall ws | Writes(lib, lib.initial, input, room, ws) ensures Yields(lib, input, room, Some(Flat(ws))) {
      WritesOn(lib, input, room, 0, input, [], room, lib.initial, ws);
      assert [] + Flat(ws) == Flat(ws);
    }
    forall calls | Fails(lib, lib.initial, input, room, calls) ensures Yields(lib, input, room, None) {
      FailsOn(lib, input, room, 0, input, [], room, lib.initial, calls);
    }
  }

  lemma {:induction false} WritesOn(lib: Library, input: seq<byte>, room: int, n: nat, rest: seq<byte>, out: seq<byte>,
                                    left: int, shift: int, ws: seq<seq<byte>>)
    requires Serial(lib, input, room, n) == Running(rest, out, left, shift) && Writes(lib, shift, rest, left, ws)
    ensures Yields(lib, input, room, Some(out + Flat(ws)))
    decreases |ws|
  {
    var r := lib.convert(shift, rest, left);
    assert Serial(lib, input, room, n + 1) == Iterate(lib, Running(rest, out, left, shift));
    if |ws| == 1 {
      assert ws[1..] == [] && ws[0] + [] == ws[0];
      assert Flat(ws) == ws[0];
    } else {
      WritesOn(lib, input, room, n + 1, r.rest, out + ws[0], left - |ws[0]|, r.shift, ws[1..]);
      assert (out + ws[0]) + Flat(ws[1..]) == out + Flat(ws);
    }
  }

  lemma {:induction false} FailsOn(lib: Library, input: seq<byte>, room: int, n: nat, rest: seq<byte>, out: seq<byte>,
                                   left: int, shift: int, calls: nat)
    requires Serial(lib, input, room, n) == Running(rest, out, left, shift) && Fails(lib, shift, rest, left, calls)
    ensures Yields(lib, input, room, None)
    decreases calls
  {
    var r := lib.convert(shift, rest, left);
    assert Serial(lib, input, room, n + 1) == Iterate(lib, Running(rest, out, left, shift));
    if calls > 1 { FailsOn(lib, input, room, n + 1, r.rest, out + r.written, left - |r.written|, r.shift, calls - 1); }
  }

  // ----- the threads -----

  /** Where a thread stands inside `convd_conv_text`. */
  datatype Pc =
    | Idle
    | Waiting(input: seq<byte>, room: int)
    | Resetting(input: seq<byte>, room: int)
    | Looping(input: seq<byte>, room: int, rest: seq<byte>, out: seq<byte>, left: int)
    | Unlocking(input: seq<byte>, room: int, result: Option<seq<byte>>)
    | Returning(input: seq<byte>, room: int, result: Option<seq<byte>>)

  datatype Call = Call(thread: nat, input: seq<byte>, room: int, result: Option<seq<byte>>)

  datatype State = State(lock: Option<nat>, shift: int, threads: seq<Pc>, acquired: seq<nat>, released: seq<nat>,
                         returned: seq<Call>)

  datatype Action = Start(t: nat, input: seq<byte>, room: int) | Go(t: nat)

  predicate Shaped(s: State) { |s.acquired| == |s.released| == |s.threads| }

  /** A thread waits for the write lock until nobody holds it. */
  predicate Enabled(s: State, a: Action) {
    && Shaped(s) && a.t < |s.threads|
    && if a.Start? then s.threads[a.t].Idle?
       else !s.threads[a.t].Idle? && (s.threads[a.t].Waiting? ==> s.lock == None)
  }

  function Step(lib: Library, s: State, a: Action): State
    requires Enabled(s, a)
  {
    var t := a.t;
    if a.Start? then s.(threads := s.threads[t := Waiting(a.input, a.room)])
    else match s.threads[t]
      case Waiting(input, room) =>
        s.(lock := Some(t), acquired := s.acquired[t := s.acquired[t] + 1],
           threads := s.threads[t := Resetting(input, room)])
      case Resetting(input, room) =>
        if lib.resets(s.shift) then
          s.(shift := lib.initial, threads := s.threads[t := Looping(input, room, input, [], room)])
        else s.(threads := s.threads[t := Unlocking(input, room, None)])
      case Looping(input, room, rest, out, left) =>
        (match lib.convert(s.shift, rest, left)
         case Failed(shift) => s.(shift := shift, threads := s.threads[t := Unlocking(input, room, None)])
         case Progress(rest', written, shift) =>
           var pc := if rest' == [] then Unlocking(input, room, Some(out + written))
                     else Looping(input, room, rest', out + written, left - |written|);
           s.(shift := shift, threads := s.threads[t := pc]))
      case Unlocking(input, room, result) =>
        s.(lock := None, released := s.released[t := s.released[t] + 1],
           threads := s.threads[t := Returning(input, room, result)])
      case Returning(input, room, result) =>
        s.(returned := s.returned + [Call(t, input, room, result)], threads := s.threads[t := Idle])
      case Idle => s
  }

  /** A descriptor nobody is using; what earlier use left in its shift state does not matter. */
  ghost predicate Unused(s: State) {
    && Shaped(s) && s.lock == None && s.returned == []
    && forall t :: 0 <= t < |s.threads| ==> s.threads[t].Idle? && s.acquired[t] == s.released[t] == 0
  }

  predicate Critical(pc: Pc) { pc.Resetting? || pc.Looping? || pc.Unlocking? }

  function CallsOf(calls: seq<Call>, t: nat): nat {
    if calls == [] then 0 else CallsOf(calls[..|calls| - 1], t) + if calls[|calls| - 1].thread == t then 1 else 0
  }

  lemma CallsOfAppend(calls: seq<Call>, c: Call, t: nat)
    ensures CallsOf(calls + [c], t) == CallsOf(calls, t) + if c.thread == t then 1 else 0
  {
    assert (calls + [c])[..|calls|] == calls;
  }

  /** A result is that of converting the input alone; failing also if the library refuses to reset. */
  ghost predicate Sound(lib: Library, input: seq<byte>, room: int, result: Option<seq<byte>>) {
    Yields(lib, input, room, result) || (result == None && exists shift :: !lib.resets(shift))
  }

  /** What a thread knows of its own call; while it loops, the shared shift state is its own. */
  ghost predicate OnCourse(lib: Library, pc: Pc, shift: int) {
    match pc
    case Looping(input, room, rest, out, left) =>
      exists n: nat :: Serial(lib, input, room, n) == Running(rest, out, left, shift)
    case Unlocking(input, room, result) => Sound(lib, input, room, result)
    case Returning(input, room, result) => Sound(lib, input, room, result)
    case _ => true
  }

  /** Thread `t` holds the lock exactly inside the critical section, and its locks, unlocks and returns tally. */
  predicate Tallies(s: State, t: nat)
    requires Shaped(s) && t < |s.threads|
  {
    && (Critical(s.threads[t]) <==> s.lock == Some(t))
    && s.acquired[t] == s.released[t] + (if Critical(s.threads[t]) then 1 else 0)
    && s.released[t] == CallsOf(s.returned, t) + if s.threads[t].Returning? then 1 else 0
  }

  ghost predicate Inv(lib: Library, s: State) {
    && Shaped(s) && (s.lock.Some? ==> s.lock.value < |s.threads|)
    && (forall t: nat | t < |s.threads| :: Tallies(s, t))
    && (forall t: nat | t < |s.threads| :: OnCourse(lib, s.threads[t], s.shift))
    && (forall k | 0 <= k < |s.returned| :: Sound(lib, s.returned[k].input, s.returned[k].room, s.returned[k].result))
  }

  lemma UnusedIsFine(lib: Library, s: State)
    requires Unused(s)
    ensures Inv(lib, s)
  {
  }

  /** The step leaves the moving thread on course. */
  lemma MoverOnCourse(lib: Library, s: State, a: Action)
    requires Enabled(s, a) && OnCourse(lib, s.threads[a.t], s.shift)
    ensures var s' := Step(lib, s, a); OnCourse(lib, s'.threads[a.t], s'.shift)
  {
    var s' := Step(lib, s, a);
    if a.Go? && s.threads[a.t].Resetting? {
      var pc := s.threads[a.t];
      assert lib.resets(s.shift) ==> Serial(lib, pc.input, pc.room, 0) == Running(pc.input, [], pc.room, lib.initial);
    } else if a.Go? && s.threads[a.t].Looping? {
      var pc := s.threads[a.t];
      var n: nat :| Serial(lib, pc.input, pc.room, n) == Running(pc.rest, pc.out, pc.left, s.shift);
      assert Serial(lib, pc.input, pc.room, n + 1) == Iterate(lib, Running(pc.rest, pc.out, pc.left, s.shift));
    }
  }

  lemma ReturnTallies(lib: Library, s: State, a: Action, t: nat)
    requires Enabled(s, a) && a.Go? && s.threads[a.t].Returning? && t < |s.threads| && Tallies(s, t)
    ensures Tallies(Step(lib, s, a), t)
  {
    hide CallsOf;
    var pc := s.threads[a.t];
    CallsOfAppend(s.returned, Call(a.t, pc.input, pc.room, pc.result), t);
  }

  lemma MoverTallies(lib: Library, s: State, a: Action)
    requires Enabled(s, a) && Tallies(s, a.t) && !(a.Go? && s.threads[a.t].Returning?)
    ensures Tallies(Step(lib, s, a), a.t)
  {
    hide CallsOf;
  }

  lemma OthersTally(lib: Library, s: State, a: Action, t: nat)
    requires Enabled(s, a) && t < |s.threads| && t != a.t && !(a.Go? && s.threads[a.t].Returning?)
    requires Tallies(s, a.t) && Tallies(s, t)
    ensures Tallies(Step(lib, s, a), t)
  {
    hide CallsOf;
  }

  lemma StepTallies(lib: Library, s: State, a: Action, t: nat)
    requires Enabled(s, a) && t < |s.threads| && Tallies(s, a.t) && Tallies(s, t)
    ensures Tallies(Step(lib, s, a), t)
  {
    hide Tallies, Step;
    if a.Go? && s.threads[a.t].Returning? {
      ReturnTallies(lib, s, a, t);
    } else if t == a.t {
      MoverTallies(lib, s, a);
    } else {
      OthersTally(lib, s, a, t);
    }
  }

  /** The other threads: only the holder of the lock changes the shift state. */
  lemma OthersOnCourse(lib: Library, s: State, a: Action, t: nat)
    requires Enabled(s, a) && t < |s.threads| && t != a.t
    requires Tallies(s, a.t) && Tallies(s, t) && OnCourse(lib, s.threads[t], s.shift)
    ensures var s' := Step(lib, s, a); s'.threads[t] == s.threads[t] && OnCourse(lib, s'.threads[t], s'.shift)
  {
  }

  lemma StepKeepsInv(lib: Library, s: State, a: Action)
    requires Inv(lib, s) && Enabled(s, a)
    ensures Inv(lib, Step(lib, s, a))
  {
    var s' := Step(lib, s, a);
    StepKeepsShape(lib, s, a);
    forall t: nat | t < |s'.threads| ensures Tallies(s', t) && OnCourse(lib, s'.threads[t], s'.shift) {
      hide Tallies, OnCourse, Step;
      StepTallies(lib, s, a, t);
      if t == a.t { MoverOnCourse(lib, s, a); } else { OthersOnCourse(lib, s, a, t); }
    }
  }

  lemma StepKeepsShape(lib: Library, s: State, a: Action)
    requires Enabled(s, a) && OnCourse(lib, s.threads[a.t], s.shift) && (s.lock.Some? ==> s.lock.value < |s.threads|)
    ensures var s' := Step(lib, s, a);
            && Shaped(s') && |s'.threads| == |s.threads| && (s'.lock.Some? ==> s'.lock.value < |s'.threads|)
            && s.returned <= s'.returned
            && forall k | |s.returned| <= k < |s'.returned| ::
                 Sound(lib, s'.returned[k].input, s'.returned[k].room, s'.returned[k].result)
  {
  }

  // ----- whole runs -----

  predicate Possible(lib: Library, s: State, run: seq<Action>)
    decreases |run|
  {
    run == [] || (Enabled(s, run[0]) && Possible(lib, Step(lib, s, run[0]), run[1..]))
  }

  function After(lib: Library, s: State, run: seq<Action>): State
    requires Possible(lib, s, run)
    decreases |run|
  {
    if run == [] then s else After(lib, Step(lib, s, run[0]), run[1..])
  }

  lemma {:induction false} RunKeepsInv(lib: Library, s: State, run: seq<Action>)
    requires Inv(lib, s) && Possible(lib, s, run)
    ensures Inv(lib, After(lib, s, run))
    decreases |run|
  {
    hide Inv, Step;
    if run != [] {
      StepKeepsInv(lib, s, run[0]);
      RunKeepsInv(lib, Step(lib, s, run[0]), run[1..]);
    }
  }

  /** No two threads are in the critical section. */
  predicate Exclusive(s: State) {
    forall t: nat, u: nat | t < |s.threads| && u < |s.threads| && Critical(s.threads[t]) && Critical(s.threads[u]) ::
      t == u
  }

  /**
   * In every interleaving: no two threads are in the critical section, a thread outside it has
   * released the lock as often as it took it, once for each finished call, and each finished call
   * returned the conversion of its own input from the initial shift state.
   */
  lemma EveryRun(lib: Library, s: State, run: seq<Action>)
    requires Unused(s) && Possible(lib, s, run)
    ensures var e := After(lib, s, run);
            && Shaped(e)
            && Exclusive(e)
            && (forall t: nat | t < |e.threads| && e.threads[t].Idle? ::
                  e.acquired[t] == e.released[t] == CallsOf(e.returned, t))
            && (forall k | 0 <= k < |e.returned| && e.returned[k].result.Some? ::
                  Yields(lib, e.returned[k].input, e.returned[k].room, e.returned[k].result))
            && ((forall shift :: lib.resets(shift)) ==>
                  forall k | 0 <= k < |e.returned| ::
                    Yields(lib, e.returned[k].input, e.returned[k].room, e.returned[k].result))
  {
    UnusedIsFine(lib, s);
    RunKeepsInv(lib, s, run);
    var e := After(lib, s, run);
    forall t: nat, u: nat | t < |e.threads| && u < |e.threads| && Critical(e.threads[t]) && Critical(e.threads[u])
      ensures t == u
    {
      assert Tallies(e, t) && Tallies(e, u);
    }
    forall t: nat | t < |e.threads| && e.threads[t].Idle?
      ensures e.acquired[t] == e.released[t] == CallsOf(e.returned, t)
    {
      assert Tallies(e, t);
    }
  }

  /** What the other threads do, and when, does not show in a call's result. */
  lemma ResultDependsOnInputOnly(lib: Library, s: State, run: seq<Action>, s': State, run': seq<Action>, i: nat, j: nat)
    requires Unused(s) && Possible(lib, s, run) && Unused(s') && Possible(lib, s', run')
    requires forall shift :: lib.resets(shift)
    requires i < |After(lib, s, run).returned| && j < |After(lib, s', run').returned|
    requires var c, d := After(lib, s, run).returned[i], After(lib, s', run').returned[j];
             c.input == d.input && c.room == d.room
    ensures After(lib, s, run).returned[i].result == After(lib, s', run').returned[j].result
  {
    EveryRun(lib, s, run);
    EveryRun(lib, s', run');
    var c, d := After(lib, s, run).returned[i], After(lib, s', run').returned[j];
    YieldsOne(lib, c.input, c.room, c.result, d.result);
  }

  // ----- no deadlock, and an end -----

  /** As long as a call is under way, some thread can go on. */
  lemma NeverStuck(lib: Library, s: State, t: nat)
    requires Inv(lib, s) && t < |s.threads| && !s.threads[t].Idle?
    ensures exists u: nat :: u < |s.threads| && Enabled(s, Go(u))
  {
    if Enabled(s, Go(t)) {
    } else {
      var u := s.lock.value;
      assert Tallies(s, u);
      assert Enabled(s, Go(u));
    }
  }

  /** A successful call of the library consumes all of its input. */
  ghost predicate Diligent(lib: Library) {
    forall shift, input, room :: lib.convert(shift, input, room).Progress? ==>
        lib.convert(shift, input, room).rest == []
  }

  function StepsLeft(pc: Pc): nat {
    match pc case Idle => 0 case Waiting(_, _) => 5 case Resetting(_, _) => 4 case Looping(_, _, _, _, _) => 3
             case Unlocking(_, _, _) => 2 case Returning(_, _, _) => 1
  }

  function AllStepsLeft(threads: seq<Pc>): nat {
    if threads == [] then 0 else StepsLeft(threads[0]) + AllStepsLeft(threads[1..])
  }

  function Starts(run: seq<Action>): nat {
    if run == [] then 0 else (if run[0].Start? then 1 else 0) + Starts(run[1..])
  }

  lemma {:induction false} StepsLeftUpdate(threads: seq<Pc>, t: nat, pc: Pc)
    requires t < |threads|
    ensures AllStepsLeft(threads[t := pc]) == AllStepsLeft(threads) - StepsLeft(threads[t]) + StepsLeft(pc)
  {
    if t == 0 {
      assert threads[0 := pc][1..] == threads[1..];
    } else {
      StepsLeftUpdate(threads[1..], t - 1, pc);
      assert threads[t := pc][1..] == threads[1..][t - 1 := pc];
    }
  }

  lemma StepCounts(lib: Library, s: State, a: Action)
    requires Diligent(lib) && Enabled(s, a)
    ensures AllStepsLeft(Step(lib, s, a).threads) + 1 <= AllStepsLeft(s.threads) + if a.Start? then 6 else 0
  {
    var pc := Step(lib, s, a).threads[a.t];
    assert Step(lib, s, a).threads == s.threads[a.t := pc];
    StepsLeftUpdate(s.threads, a.t, pc);
  }

  /** Calls end: a run with `n` calls has at most `6 * n` steps, however they are interleaved. */
  lemma {:induction false} RunsEnd(lib: Library, s: State, run: seq<Action>)
    requires Diligent(lib) && Possible(lib, s, run)
    ensures |run| + AllStepsLeft(After(lib, s, run).threads) <= AllStepsLeft(s.threads) + 6 * Starts(run)
    decreases |run|
  {
    hide Step, Diligent;
    if run != [] {
      StepCounts(lib, s, run[0]);
      RunsEnd(lib, Step(lib, s, run[0]), run[1..]);
    }
  }
}
