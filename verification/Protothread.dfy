/**
 * Protothreads: C functions whose body is one big `switch`, so that a call can jump back to the
 * place where an earlier call returned. `Exec` and `Call` are what the macros do; `Resume` is the
 * blocking thread they stand for. The two agree on every body, every run and every environment.
 *
 * A body works on a global state of type `S`. Conditions may have side effects.
 */
module Protothread {
  import opened Common

  datatype Status = Waiting | Yielded | Exited | Ended

  /** Statements of a body. A label is the source line that the macro stores. */
  datatype Stmt<!S> =
    | Do(act: S -> S)
    | Seq(first: Stmt<S>, second: Stmt<S>)
    | If(cond: S -> (bool, S), thn: Stmt<S>, els: Stmt<S>)
    | While(cond: S -> (bool, S), body: Stmt<S>)
    | WaitUntil(line: nat, cond: S -> (bool, S))
    | Yield(line: nat)
    | YieldUntil(line: nat, cond: S -> (bool, S))
    | Restart
    | Exit

  function Labels<S>(s: Stmt<S>): set<nat> {
    match s
    case Seq(a, b) => Labels(a) + Labels(b)
    case If(_, a, b) => Labels(a) + Labels(b)
    case While(_, b) => Labels(b)
    case WaitUntil(l, _) => {l}
    case Yield(l) => {l}
    case YieldUntil(l, _) => {l}
    case _ => {}
  }

  /** Labels are distinct, are not the initial value 0, and fit the `unsigned short` that stores them. */
  predicate WellFormed<S>(s: Stmt<S>) {
    match s
    case Seq(a, b) => WellFormed(a) && WellFormed(b) && Labels(a) !! Labels(b)
    case If(_, a, b) => WellFormed(a) && WellFormed(b) && Labels(a) !! Labels(b)
    case While(_, b) => WellFormed(b)
    case WaitUntil(l, _) => 0 < l < 0x1_0000
    case Yield(l) => 0 < l < 0x1_0000
    case YieldUntil(l, _) => 0 < l < 0x1_0000
    case _ => true
  }

  // ----- the macros -----

  /** The saved continuation, the local `PT_YIELD_FLAG`, and the global state. */
  datatype Machine<!S> = Machine(lc: nat, flag: nat, st: S)

  /** `Seek(l)`: the switch has jumped but its `case` has not been reached yet. */
  datatype Mode = Run | Seek(line: nat)

  /** A statement runs on to the next one, returns from the function, or uses up the loop budget. */
  datatype Outcome<!S> =
    | Fall(m: Machine<S>, mode: Mode, clock: nat)
    | Return(status: Status, m: Machine<S>, clock: nat)
    | Timeout

  /** `s = __LINE__`, stored in sixteen bits. */
  function Stored(line: nat): nat { line % 0x1_0000 }

  /** Execute one statement inside the switch. `clock` bounds the loop iterations of one call. */
  function Exec<S>(s: Stmt<S>, mode: Mode, m: Machine<S>, clock: nat): (r: Outcome<S>)
    ensures r.Fall? ==> r.clock <= clock
    decreases clock, s, if mode.Seek? then 1 else 0
  {
    match s
    case Do(act) =>
      if mode.Run? then Fall(m.(st := act(m.st)), Run, clock) else Fall(m, mode, clock)
    case Seq(a, b) =>
      (match Exec(a, mode, m, clock)
       case Fall(m', mode', clock') => Exec(b, mode', m', clock')
       case r => r)
    case If(cond, a, b) =>
      if mode.Run? then
        var (v, st) := cond(m.st);
        Exec(if v then a else b, Run, m.(st := st), clock)
      else if mode.line in Labels(a) then Exec(a, mode, m, clock)
      else Exec(b, mode, m, clock)
    case While(cond, body) =>
      if mode.Run? then
        var (v, st) := cond(m.st);
        if !v then Fall(m.(st := st), Run, clock)
        else if clock == 0 then Timeout
        else match Exec(body, Run, m.(st := st), clock - 1)
          case Fall(m', _, clock') => Exec(s, Run, m', clock')
          case r => r
      else if mode.line in Labels(body) then
        match Exec(body, mode, m, clock)
        case Fall(m', _, clock') => Exec(s, Run, m', clock')
        case r => r
      else Fall(m, mode, clock)
    case WaitUntil(l, cond) =>
      if mode.Run? || Stored(mode.line) == l then
        var m1 := if mode.Run? then m.(lc := Stored(l)) else m;
        var (v, st) := cond(m1.st);
        if v then Fall(m1.(st := st), Run, clock) else Return(Waiting, m1.(st := st), clock)
      else Fall(m, mode, clock)
    case Yield(l) =>
      if mode.Run? || Stored(mode.line) == l then
        var m1 := if mode.Run? then m.(flag := 0, lc := Stored(l)) else m;
        if m1.flag == 0 then Return(Yielded, m1, clock) else Fall(m1, Run, clock)
      else Fall(m, mode, clock)
    case YieldUntil(l, cond) =>
      if mode.Run? || Stored(mode.line) == l then
        var m1 := if mode.Run? then m.(flag := 0, lc := Stored(l)) else m;
        if m1.flag == 0 then Return(Yielded, m1, clock)
        else
          var (v, st) := cond(m1.st);
          if v then Fall(m1.(st := st), Run, clock) else Return(Yielded, m1.(st := st), clock)
      else Fall(m, mode, clock)
    case Restart => if mode.Run? then Return(Waiting, m.(lc := 0), clock) else Fall(m, mode, clock)
    case Exit => if mode.Run? then Return(Exited, m.(lc := 0), clock) else Fall(m, mode, clock)
  }

  /** What a call leaves behind: its result, the saved continuation and the state; or no result. */
  datatype Scheduled<!S> = Scheduled(status: Status, lc: nat, st: S) | Diverges

  /** One call of the thread function: PT_BEGIN, the body, PT_END. */
  function Call<S>(body: Stmt<S>, lc: nat, st: S, clock: nat): Scheduled<S> {
    match Exec(body, if lc == 0 then Run else Seek(lc), Machine(lc, 1, st), clock)
    case Fall(m, _, _) => Scheduled(Ended, 0, m.st)
    case Return(status, m, _) => Scheduled(status, m.lc, m.st)
    case Timeout => Diverges
  }

  // ----- the blocking thread -----

  /** What a suspended thread still has to do. `Recheck` is a wait that has already begun. */
  datatype Task<!S> = Body(s: Stmt<S>) | Recheck(cond: S -> (bool, S), status: Status)

  datatype Progress<!S> =
    | Suspended(status: Status, todo: seq<Task<S>>, st: S, clock: nat)
    | Finished(status: Status, st: S, clock: nat)
    | OutOfTime

  function Size<S>(s: Stmt<S>): nat {
    match s
    case Seq(a, b) => 1 + Size(a) + Size(b)
    case If(_, a, b) => 1 + Size(a) + Size(b)
    case While(_, b) => 1 + Size(b)
    case _ => 2
  }

  function TotalSize<S>(todo: seq<Task<S>>): nat {
    if todo == [] then 0
    else (match todo[0] case Body(s) => Size(s) case Recheck(_, _) => 1) + TotalSize(todo[1..])
  }

  lemma SizeOfTwo<S>(a: Stmt<S>, b: Stmt<S>, rest: seq<Task<S>>)
    ensures TotalSize([Body(a), Body(b)] + rest) == Size(a) + Size(b) + TotalSize(rest)
  {
    assert ([Body(a), Body(b)] + rest)[1..] == [Body(b)] + rest;
    assert ([Body(b)] + rest)[1..] == rest;
  }

  /** Run a blocking thread until it next waits, yields or finishes. It has no labels and no flag. */
  function Resume<S>(todo: seq<Task<S>>, st: S, clock: nat): Progress<S>
    decreases clock, TotalSize(todo)
  {
    if todo == [] then Finished(Ended, st, clock)
    else
      var rest := todo[1..];
      match todo[0]
      case Recheck(cond, status) =>
        var (v, st') := cond(st);
        if v then Resume(rest, st', clock) else Suspended(status, todo, st', clock)
      case Body(s) =>
        match s
        case Do(act) => Resume(rest, act(st), clock)
        case Seq(a, b) =>
          SizeOfTwo(a, b, rest);
          Resume([Body(a), Body(b)] + rest, st, clock)
        case If(cond, a, b) =>
          var (v, st') := cond(st);
          Resume([Body(if v then a else b)] + rest, st', clock)
        case While(cond, body) =>
          var (v, st') := cond(st);
          if !v then Resume(rest, st', clock)
          else if clock == 0 then OutOfTime
          else Resume([Body(body), Body(s)] + rest, st', clock - 1)
        case WaitUntil(_, cond) => Resume([Recheck(cond, Waiting)] + rest, st, clock)
        case Yield(_) => Suspended(Yielded, rest, st, clock)
        case YieldUntil(_, cond) => Suspended(Yielded, [Recheck(cond, Yielded)] + rest, st, clock)
        case Restart => Finished(Waiting, st, clock)
        case Exit => Finished(Exited, st, clock)
  }

  // ----- jumping to a label is resuming there -----

  /** What is left of `s` from label `l` on. */
  function From<S>(s: Stmt<S>, l: nat): seq<Task<S>>
    requires l in Labels(s)
  {
    match s
    case Seq(a, b) => if l in Labels(a) then From(a, l) + [Body(b)] else From(b, l)
    case If(_, a, b) => if l in Labels(a) then From(a, l) else From(b, l)
    case While(_, b) => From(b, l) + [Body(s)]
    case WaitUntil(_, cond) => [Recheck(cond, Waiting)]
    case Yield(_) => []
    case YieldUntil(_, cond) => [Recheck(cond, Yielded)]
  }

  lemma {:induction false} LabelsInRange<S>(s: Stmt<S>, l: nat)
    requires WellFormed(s) && l in Labels(s)
    ensures 0 < l < 0x1_0000
  {
    match s
    case Seq(a, b) => if l in Labels(a) { LabelsInRange(a, l); } else { LabelsInRange(b, l); }
    case If(_, a, b) => if l in Labels(a) { LabelsInRange(a, l); } else { LabelsInRange(b, l); }
    case While(_, b) => LabelsInRange(b, l);
    case _ =>
  }

  /** The outcome of executing (part of) `s` is how a blocking thread gets on with that part and then `rest`. */
  ghost predicate Agrees<S>(s: Stmt<S>, r: Outcome<S>, p: Progress<S>, rest: seq<Task<S>>) {
    match r
    case Fall(m, mode, clock) => mode.Run? && m.flag == 1 && p == Resume(rest, m.st, clock)
    case Return(status, m, clock) =>
      if m.lc == 0 then p == Finished(status, m.st, clock)
      else m.lc in Labels(s) && p == Suspended(status, From(s, m.lc) + rest, m.st, clock)
    case Timeout => p == OutOfTime
  }

  /** Executing a statement from its start. */
  lemma {:induction false} RunAgrees<S>(s: Stmt<S>, m: Machine<S>, clock: nat, rest: seq<Task<S>>)
    requires WellFormed(s) && m.flag == 1
    ensures Agrees(s, Exec(s, Run, m, clock), Resume([Body(s)] + rest, m.st, clock), rest)
    decreases clock, s, 1
  {
    var todo := [Body(s)] + rest;
    assert todo[0] == Body(s) && todo[1..] == rest;
    match s
    case Seq(a, b) =>
      var rest' := [Body(b)] + rest;
      assert [Body(a), Body(b)] + rest == [Body(a)] + rest';
      RunAgrees(a, m, clock, rest');
      SecondAgrees(s, Exec(a, Run, m, clock), Resume([Body(a)] + rest', m.st, clock), clock, rest);
    case If(cond, a, b) =>
      var (v, st) := cond(m.st);
      RunAgrees(if v then a else b, m.(st := st), clock, rest);
    case While(cond, body) =>
      var (v, st) := cond(m.st);
      if v && clock > 0 {
        var rest' := [Body(s)] + rest;
        assert [Body(body), Body(s)] + rest == [Body(body)] + rest';
        var m1 := m.(st := st);
        RunAgrees(body, m1, clock - 1, rest');
        LoopAgrees(s, Exec(body, Run, m1, clock - 1), Resume([Body(body)] + rest', st, clock - 1), clock - 1, rest);
      }
    case WaitUntil(l, cond) =>
      var todo' := [Recheck(cond, Waiting)] + rest;
      assert todo'[0] == Recheck(cond, Waiting) && todo'[1..] == rest;
    case Yield(l) => assert [] + rest == rest;
    case _ =>
  }

  /** Once the first part of a sequence agrees, so does the whole. */
  lemma SecondAgrees<S>(s: Stmt<S>, r: Outcome<S>, p: Progress<S>, clock: nat, rest: seq<Task<S>>)
    requires s.Seq? && WellFormed(s) && Agrees(s.first, r, p, [Body(s.second)] + rest)
    requires r.Fall? ==> r.clock <= clock
    ensures Agrees(s, if r.Fall? then Exec(s.second, r.mode, r.m, r.clock) else r, p, rest)
    decreases clock, s, 0
  {
    match r
    case Fall(m, _, clock') => RunAgrees(s.second, m, clock', rest);
    case Return(_, m, _) =>
      if m.lc != 0 {
        assert From(s.first, m.lc) + ([Body(s.second)] + rest) == From(s, m.lc) + rest;
      }
    case Timeout =>
  }

  /** Once an iteration of a loop agrees, so does the rest of the loop. */
  lemma LoopAgrees<S>(s: Stmt<S>, r: Outcome<S>, p: Progress<S>, clock: nat, rest: seq<Task<S>>)
    requires s.While? && WellFormed(s) && Agrees(s.body, r, p, [Body(s)] + rest)
    requires r.Fall? ==> r.clock <= clock
    ensures Agrees(s, if r.Fall? then Exec(s, Run, r.m, r.clock) else r, p, rest)
    decreases clock, s, 2
  {
    match r
    case Fall(m, _, clock') => RunAgrees(s, m, clock', rest);
    case Return(_, m, _) =>
      if m.lc != 0 {
        assert From(s.body, m.lc) + ([Body(s)] + rest) == From(s, m.lc) + rest;
      }
    case Timeout =>
  }

  /** A statement without the label is passed over by the jump. */
  lemma {:induction false} SeekPasses<S>(s: Stmt<S>, m: Machine<S>, clock: nat, l: nat)
    requires WellFormed(s) && l < 0x1_0000 && l !in Labels(s)
    ensures Exec(s, Seek(l), m, clock) == Fall(m, Seek(l), clock)
  {
    match s
    case Seq(a, b) => SeekPasses(a, m, clock, l); SeekPasses(b, m, clock, l);
    case If(_, a, b) => SeekPasses(b, m, clock, l);
    case _ =>
  }

  /** Executing a statement by jumping to one of its labels. */
  lemma {:induction false} SeekAgrees<S>(s: Stmt<S>, l: nat, m: Machine<S>, clock: nat, rest: seq<Task<S>>)
    requires WellFormed(s) && l in Labels(s) && m.flag == 1 && m.lc == l
    ensures Agrees(s, Exec(s, Seek(l), m, clock), Resume(From(s, l) + rest, m.st, clock), rest)
  {
    LabelsInRange(s, l);
    match s
    case Seq(a, b) =>
      if l in Labels(a) {
        var rest' := [Body(b)] + rest;
        assert From(s, l) + rest == From(a, l) + rest';
        SeekAgrees(a, l, m, clock, rest');
        SecondAgrees(s, Exec(a, Seek(l), m, clock), Resume(From(a, l) + rest', m.st, clock), clock, rest);
      } else {
        SeekPasses(a, m, clock, l);
        SeekAgrees(b, l, m, clock, rest);
        InSecond(s, Exec(b, Seek(l), m, clock), Resume(From(b, l) + rest, m.st, clock), rest);
      }
    case If(_, a, b) =>
      SeekAgrees(if l in Labels(a) then a else b, l, m, clock, rest);
    case While(_, body) =>
      var rest' := [Body(s)] + rest;
      assert From(s, l) + rest == From(body, l) + rest';
      SeekAgrees(body, l, m, clock, rest');
      LoopAgrees(s, Exec(body, Seek(l), m, clock), Resume(From(body, l) + rest', m.st, clock), clock, rest);
    case WaitUntil(_, cond) =>
      var todo := [Recheck(cond, Waiting)] + rest;
      assert todo[0] == Recheck(cond, Waiting) && todo[1..] == rest;
    case Yield(_) => assert [] + rest == rest;
    case YieldUntil(_, cond) =>
      var todo := [Recheck(cond, Yielded)] + rest;
      assert todo[0] == Recheck(cond, Yielded) && todo[1..] == rest;
    case _ =>
  }

  lemma InSecond<S>(s: Stmt<S>, r: Outcome<S>, p: Progress<S>, rest: seq<Task<S>>)
    requires s.Seq? && WellFormed(s) && Agrees(s.second, r, p, rest)
    ensures Agrees(s, r, p, rest)
  {
  }

  // ----- whole runs -----

  /** The blocking thread waits where the saved continuation points. */
  ghost predicate SamePlace<S>(body: Stmt<S>, lc: nat, todo: seq<Task<S>>) {
    if lc == 0 then todo == [Body(body)] else lc in Labels(body) && todo == From(body, lc)
  }

  /** The same result and state, and continuations that mean the same. */
  ghost predicate SameReport<S>(body: Stmt<S>, r: Scheduled<S>, p: Progress<S>) {
    match p
    case OutOfTime => r == Diverges
    case Suspended(status, todo, st, _) =>
      r.Scheduled? && r.status == status && r.st == st && r.lc != 0 && SamePlace(body, r.lc, todo)
    case Finished(status, st, _) => r == Scheduled(status, 0, st)
  }

  /** A call of the thread function is one turn of the blocking thread; a finished thread is at its start again. */
  lemma CallIsResume<S>(body: Stmt<S>, lc: nat, todo: seq<Task<S>>, st: S, clock: nat)
    requires WellFormed(body) && SamePlace(body, lc, todo)
    ensures SameReport(body, Call(body, lc, st, clock), Resume(todo, st, clock))
  {
    assert todo + [] == todo;
    var m := Machine(lc, 1, st);
    if lc == 0 {
      RunAgrees(body, m, clock, []);
      assert [Body(body)] + [] == [Body(body)];
    } else {
      LabelsInRange(body, lc);
      SeekAgrees(body, lc, m, clock, []);
    }
    var r := Exec(body, if lc == 0 then Run else Seek(lc), m, clock);
    if r.Return? && r.m.lc != 0 {
      assert From(body, r.m.lc) + [] == From(body, r.m.lc);
    }
  }

  /** Results and states of the calls of a run; before each call the environment changes the state. */
  function RunCalls<S>(body: Stmt<S>, lc: nat, st: S, envs: seq<S -> S>, clock: nat): seq<Option<(Status, S)>>
    decreases |envs|
  {
    if envs == [] then []
    else match Call(body, lc, envs[0](st), clock)
      case Diverges => [None]
      case Scheduled(status, lc', st') => [Some((status, st'))] + RunCalls(body, lc', st', envs[1..], clock)
  }

  /** The same run of the blocking thread, started anew after it has finished. */
  function RunBlocking<S>(body: Stmt<S>, todo: seq<Task<S>>, st: S, envs: seq<S -> S>,
                          clock: nat): seq<Option<(Status, S)>>
    decreases |envs|
  {
    if envs == [] then []
    else match Resume(todo, envs[0](st), clock)
      case OutOfTime => [None]
      case Suspended(status, todo', st', _) =>
        [Some((status, st'))] + RunBlocking(body, todo', st', envs[1..], clock)
      case Finished(status, st', _) =>
        [Some((status, st'))] + RunBlocking(body, [Body(body)], st', envs[1..], clock)
  }

  /** Every run of the macros shows what the blocking thread shows, call by call. */
  lemma {:induction false} RunsAgree<S>(body: Stmt<S>, lc: nat, todo: seq<Task<S>>, st: S, envs: seq<S -> S>,
                                           clock: nat)
    requires WellFormed(body) && SamePlace(body, lc, todo)
    ensures RunCalls(body, lc, st, envs, clock) == RunBlocking(body, todo, st, envs, clock)
    decreases |envs|
  {
    if envs != [] {
      var st0 := envs[0](st);
      CallIsResume(body, lc, todo, st0, clock);
      match Resume(todo, st0, clock)
      case OutOfTime =>
      case Suspended(_, todo', st', _) => RunsAgree(body, Call(body, lc, st0, clock).lc, todo', st', envs[1..], clock);
      case Finished(_, st', _) => RunsAgree(body, 0, [Body(body)], st', envs[1..], clock);
    }
  }

  // ----- what the budget and the yields mean -----

  /** A larger budget changes nothing but itself: a result that is reached does not depend on it. */
  lemma {:induction false} BudgetIsIrrelevant<S>(todo: seq<Task<S>>, st: S, clock: nat, more: nat)
    requires Resume(todo, st, clock) != OutOfTime
    ensures match Resume(todo, st, clock)
            case Suspended(status, todo', st', clock') =>
              Resume(todo, st, clock + more) == Suspended(status, todo', st', clock' + more)
            case Finished(status, st', clock') => Resume(todo, st, clock + more) == Finished(status, st', clock' + more)
    decreases clock, TotalSize(todo)
  {
    if todo != [] {
      var rest := todo[1..];
      match todo[0]
      case Recheck(cond, status) =>
        var (v, st') := cond(st);
        if v { BudgetIsIrrelevant(rest, st', clock, more); }
      case Body(s) =>
        match s
        case Do(act) => BudgetIsIrrelevant(rest, act(st), clock, more);
        case Seq(a, b) =>
          SizeOfTwo(a, b, rest);
          BudgetIsIrrelevant([Body(a), Body(b)] + rest, st, clock, more);
        case If(cond, a, b) =>
          var (v, st') := cond(st);
          BudgetIsIrrelevant([Body(if v then a else b)] + rest, st', clock, more);
        case While(cond, body) =>
          var (v, st') := cond(st);
          if !v { BudgetIsIrrelevant(rest, st', clock, more); }
          else { BudgetIsIrrelevant([Body(body), Body(s)] + rest, st', clock - 1, more); }
        case WaitUntil(_, cond) => BudgetIsIrrelevant([Recheck(cond, Waiting)] + rest, st, clock, more);
        case _ =>
    }
  }

  /** The label belongs to a yield. */
  predicate YieldAt<S>(s: Stmt<S>, l: nat) {
    match s
    case Seq(a, b) => if l in Labels(a) then YieldAt(a, l) else YieldAt(b, l)
    case If(_, a, b) => if l in Labels(a) then YieldAt(a, l) else YieldAt(b, l)
    case While(_, b) => YieldAt(b, l)
    case Yield(k) => k == l
    case _ => false
  }

  /** Behind a yield nothing is checked again. */
  lemma {:induction false} BehindYield<S>(s: Stmt<S>, l: nat)
    requires YieldAt(s, l)
    ensures l in Labels(s) && forall k :: 0 <= k < |From(s, l)| ==> From(s, l)[k].Body?
  {
    match s
    case Seq(a, b) => if l in Labels(a) { BehindYield(a, l); } else { BehindYield(b, l); }
    case If(_, a, b) => if l in Labels(a) { BehindYield(a, l); } else { BehindYield(b, l); }
    case While(_, b) => BehindYield(b, l);
    case _ =>
  }

  /** A thread is suspended in a check that reports its status, or has yielded. */
  lemma {:induction false} SuspendedInCheck<S>(todo: seq<Task<S>>, st: S, clock: nat)
    ensures var p := Resume(todo, st, clock);
            p.Suspended? ==> p.status == Yielded || (p.todo != [] && p.todo[0].Recheck?)
    decreases clock, TotalSize(todo)
  {
    if todo != [] {
      var rest := todo[1..];
      match todo[0]
      case Recheck(cond, status) => SuspendedInCheck(rest, cond(st).1, clock);
      case Body(s) =>
        match s
        case Do(act) => SuspendedInCheck(rest, act(st), clock);
        case Seq(a, b) =>
          SizeOfTwo(a, b, rest);
          SuspendedInCheck([Body(a), Body(b)] + rest, st, clock);
        case If(cond, a, b) =>
          var (v, st') := cond(st);
          SuspendedInCheck([Body(if v then a else b)] + rest, st', clock);
        case While(cond, body) =>
          var (v, st') := cond(st);
          if !v { SuspendedInCheck(rest, st', clock); }
          else if clock > 0 { SuspendedInCheck([Body(body), Body(s)] + rest, st', clock - 1); }
        case WaitUntil(_, cond) => SuspendedInCheck([Recheck(cond, Waiting)] + rest, st, clock);
        case _ =>
    }
  }

  /**
   * Wherever a yield stands in a body: a call that is suspended there has returned PT_YIELDED, and the
   * next call goes on behind the yield, whatever the state is, and checks nothing first.
   */
  lemma YieldReturnsOnce<S>(body: Stmt<S>, lc: nat, st: S, l: nat, env: S -> S, clock: nat)
    requires WellFormed(body) && YieldAt(body, l) && (lc == 0 || lc in Labels(body))
    requires Call(body, lc, st, clock).Scheduled? && Call(body, lc, st, clock).lc == l
    ensures l in Labels(body) && (forall k :: 0 <= k < |From(body, l)| ==> From(body, l)[k].Body?)
    ensures var first := Call(body, lc, st, clock);
            && first.status == Yielded
            && SameReport(body, Call(body, l, env(first.st), clock), Resume(From(body, l), env(first.st), clock))
  {
    hide Resume, Call;
    BehindYield(body, l);
    LabelsInRange(body, l);
    var todo := if lc == 0 then [Body(body)] else From(body, lc);
    CallIsResume(body, lc, todo, st, clock);
    SuspendedInCheck(todo, st, clock);
    CallIsResume(body, l, From(body, l), env(Call(body, lc, st, clock).st), clock);
  }
}
