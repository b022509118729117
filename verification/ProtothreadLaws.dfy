/**
 * What the macros do, in terms of calls alone: how a call of a body that begins with a statement, or is
 * suspended in one, is a call of what is left; and what replacing one wait by another changes.
 */
module ProtothreadLaws {
  import opened Common
  import opened Protothread

  // ----- what a call reports -----

  function Report<S>(r: Outcome<S>): Scheduled<S> {
    match r
    case Fall(m, _, _) => Scheduled(Ended, 0, m.st)
    case Return(status, m, _) => Scheduled(status, m.lc, m.st)
    case Timeout => Diverges
  }

  lemma CallReports<S>(body: Stmt<S>, lc: nat, st: S, clock: nat)
    ensures Call(body, lc, st, clock)
         == Report(Exec(body, if lc == 0 then Run else Seek(lc), Machine(lc, 1, st), clock))
  {
  }

  lemma TwoSteps<S>(a: Stmt<S>, b: Stmt<S>, mode: Mode, m: Machine<S>, clock: nat)
    ensures Exec(Seq(a, b), mode, m, clock) ==
            var r := Exec(a, mode, m, clock); if r.Fall? then Exec(b, r.mode, r.m, r.clock) else r
  {
  }

  lemma ThreeSteps<S>(a: Stmt<S>, b: Stmt<S>, s: Stmt<S>, mode: Mode, m: Machine<S>, clock: nat)
    ensures Exec(Seq(Seq(a, b), s), mode, m, clock) == Exec(Seq(a, Seq(b, s)), mode, m, clock)
  {
    hide Exec;
    TwoSteps(Seq(a, b), s, mode, m, clock);
    TwoSteps(a, b, mode, m, clock);
    TwoSteps(a, Seq(b, s), mode, m, clock);
    var r := Exec(a, mode, m, clock);
    if r.Fall? { TwoSteps(b, s, r.mode, r.m, r.clock); }
  }

  /** The same outcome, whatever continuation was saved before. */
  ghost predicate SameOutcome<S>(r: Outcome<S>, r': Outcome<S>) {
    match r
    case Fall(m, mode, clock) =>
      mode == Run && r'.Fall? && r'.m == m.(lc := r'.m.lc) && r'.mode == Run && r'.clock == clock
    case _ => r' == r
  }

  /** Executing from a start does not look at the saved continuation. */
  lemma {:induction false} SavedIsIgnored<S>(s: Stmt<S>, m: Machine<S>, lc: nat, clock: nat)
    ensures SameOutcome(Exec(s, Run, m, clock), Exec(s, Run, m.(lc := lc), clock))
    ensures Exec(s, Run, m, clock).Fall? ==> Exec(s, Run, m, clock).m.flag == m.flag
    decreases clock, s
  {
    match s
    case Seq(a, b) =>
      SavedIsIgnored(a, m, lc, clock);
      var r, r' := Exec(a, Run, m, clock), Exec(a, Run, m.(lc := lc), clock);
      if r.Fall? {
        SavedIsIgnored(b, r.m, r'.m.lc, r.clock);
        assert r'.m == r.m.(lc := r'.m.lc);
      }
    case If(cond, a, b) =>
      var (v, st) := cond(m.st);
      SavedIsIgnored(if v then a else b, m.(st := st), lc, clock);
    case While(cond, body) =>
      var (v, st) := cond(m.st);
      if v && clock > 0 {
        SavedIsIgnored(body, m.(st := st), lc, clock - 1);
        var r, r' := Exec(body, Run, m.(st := st), clock - 1), Exec(body, Run, m.(st := st).(lc := lc), clock - 1);
        if r.Fall? {
          SavedIsIgnored(s, r.m, r'.m.lc, r.clock);
          assert r'.m == r.m.(lc := r'.m.lc);
        }
      }
    case _ =>
  }

  /** What is behind a statement that runs on is a body of its own. */
  lemma GoesOn<S>(s: Stmt<S>, m: Machine<S>, clock: nat)
    requires m.flag == 1
    ensures Report(Exec(s, Run, m, clock)) == Call(s, 0, m.st, clock)
  {
    SavedIsIgnored(s, m, 0, clock);
  }

  // ----- a body that begins with a statement, called at its start -----

  /** An action, an exit, a restart. */
  lemma AtStart<S>(act: S -> S, s: Stmt<S>, st: S, clock: nat)
    ensures Call(Do(act), 0, st, clock) == Scheduled(Ended, 0, act(st))
    ensures Call(Seq(Do(act), s), 0, st, clock) == Call(s, 0, act(st), clock)
    ensures Call(Seq(Exit, s), 0, st, clock) == Scheduled(Exited, 0, st)
    ensures Call(Seq(Restart, s), 0, st, clock) == Scheduled(Waiting, 0, st)
  {
    var m := Machine(0, 1, st);
    TwoSteps(Do(act), s, Run, m, clock);
    TwoSteps(Exit, s, Run, m, clock);
    TwoSteps(Restart, s, Run, m, clock);
    GoesOn(s, m.(st := act(st)), clock);
  }

  /** A branch. */
  lemma AtBranch<S>(cond: S -> (bool, S), a: Stmt<S>, b: Stmt<S>, s: Stmt<S>, st: S, clock: nat)
    ensures var (v, st') := cond(st);
            Call(Seq(If(cond, a, b), s), 0, st, clock) == Call(Seq(if v then a else b, s), 0, st', clock)
    ensures Call(Seq(Seq(a, b), s), 0, st, clock) == Call(Seq(a, Seq(b, s)), 0, st, clock)
  {
    var m := Machine(0, 1, st);
    var (v, st') := cond(st);
    TwoSteps(If(cond, a, b), s, Run, m, clock);
    TwoSteps(if v then a else b, s, Run, m.(st := st'), clock);
    ThreeSteps(a, b, s, Run, m, clock);
  }

  /** A loop. */
  lemma AtLoop<S>(cond: S -> (bool, S), a: Stmt<S>, s: Stmt<S>, st: S, clock: nat)
    ensures var (v, st') := cond(st);
            Call(Seq(While(cond, a), s), 0, st, clock) ==
            if !v then Call(s, 0, st', clock)
            else if clock == 0 then Diverges
            else Call(Seq(Seq(a, While(cond, a)), s), 0, st', clock - 1)
  {
    var m := Machine(0, 1, st);
    var (v, st') := cond(st);
    TwoSteps(While(cond, a), s, Run, m, clock);
    if !v {
      GoesOn(s, m.(st := st'), clock);
    } else if clock > 0 {
      LoopAtStart(cond, a, st, clock);
      TwoSteps(Seq(a, While(cond, a)), s, Run, m.(st := st'), clock - 1);
    }
  }

  lemma LoopAtStart<S>(cond: S -> (bool, S), a: Stmt<S>, st: S, clock: nat)
    ensures var (v, st') := cond(st);
            v && clock > 0 ==>
              Exec(While(cond, a), Run, Machine(0, 1, st), clock)
              == Exec(Seq(a, While(cond, a)), Run, Machine(0, 1, st'), clock - 1)
  {
    var (v, st') := cond(st);
    if v && clock > 0 { SavedIsIgnored(a, Machine(0, 1, st'), 0, clock - 1); }
  }

  /** The waits: one that waits checks first, one that yields returns first. */
  lemma AtFirstWait<S>(l: nat, cond: S -> (bool, S), s: Stmt<S>, st: S, clock: nat)
    requires 0 < l < 0x1_0000
    ensures var (v, st') := cond(st);
            Call(Seq(WaitUntil(l, cond), s), 0, st, clock)
            == if v then Call(s, 0, st', clock) else Scheduled(Waiting, l, st')
    ensures Call(Seq(Yield(l), s), 0, st, clock) == Scheduled(Yielded, l, st)
    ensures Call(Seq(YieldUntil(l, cond), s), 0, st, clock) == Scheduled(Yielded, l, st)
  {
    var m := Machine(0, 1, st);
    var (v, st') := cond(st);
    TwoSteps(WaitUntil(l, cond), s, Run, m, clock);
    TwoSteps(Yield(l), s, Run, m, clock);
    TwoSteps(YieldUntil(l, cond), s, Run, m, clock);
    GoesOn(s, Machine(l, 1, st'), clock);
  }

  // ----- a body that is suspended in a statement -----

  /** The next call goes on behind a yield, and checks the condition of a wait again. */
  lemma AtNextCall<S>(l: nat, cond: S -> (bool, S), s: Stmt<S>, st: S, clock: nat)
    requires 0 < l < 0x1_0000
    ensures Call(Seq(Yield(l), s), l, st, clock) == Call(s, 0, st, clock)
    ensures var (v, st') := cond(st);
            && Call(Seq(WaitUntil(l, cond), s), l, st, clock)
               == (if v then Call(s, 0, st', clock) else Scheduled(Waiting, l, st'))
            && Call(Seq(YieldUntil(l, cond), s), l, st, clock)
               == (if v then Call(s, 0, st', clock) else Scheduled(Yielded, l, st'))
  {
    var m := Machine(l, 1, st);
    var (v, st') := cond(st);
    TwoSteps(WaitUntil(l, cond), s, Seek(l), m, clock);
    TwoSteps(Yield(l), s, Seek(l), m, clock);
    TwoSteps(YieldUntil(l, cond), s, Seek(l), m, clock);
    GoesOn(s, m, clock);
    GoesOn(s, m.(st := st'), clock);
  }

  /** A call that goes on inside a branch does not look at the condition. */
  lemma InBranch<S>(l: nat, cond: S -> (bool, S), a: Stmt<S>, b: Stmt<S>, s: Stmt<S>, st: S, clock: nat)
    requires 0 < l < 0x1_0000
    ensures l in Labels(a) ==> Call(Seq(If(cond, a, b), s), l, st, clock) == Call(Seq(a, s), l, st, clock)
    ensures l in Labels(b) && l !in Labels(a) ==>
              Call(Seq(If(cond, a, b), s), l, st, clock) == Call(Seq(b, s), l, st, clock)
  {
    var m := Machine(l, 1, st);
    TwoSteps(a, s, Seek(l), m, clock);
    TwoSteps(b, s, Seek(l), m, clock);
    TwoSteps(If(cond, a, b), s, Seek(l), m, clock);
  }

  /** A call that goes on inside a loop finishes the iteration, and then the loop. */
  lemma InLoop<S>(l: nat, cond: S -> (bool, S), a: Stmt<S>, s: Stmt<S>, st: S, clock: nat)
    requires WellFormed(a) && l in Labels(a)
    ensures Call(Seq(While(cond, a), s), l, st, clock) == Call(Seq(Seq(a, While(cond, a)), s), l, st, clock)
  {
    var m := Machine(l, 1, st);
    LabelsInRange(a, l);
    JumpLands(a, l, m, clock);
    TwoSteps(While(cond, a), s, Seek(l), m, clock);
    TwoSteps(a, While(cond, a), Seek(l), m, clock);
    TwoSteps(Seq(a, While(cond, a)), s, Seek(l), m, clock);
  }

  /** A call that goes on behind a statement passes it over. */
  lemma InSequence<S>(l: nat, a: Stmt<S>, b: Stmt<S>, s: Stmt<S>, st: S, clock: nat)
    requires 0 < l < 0x1_0000 && WellFormed(a)
    ensures l !in Labels(a) ==> Call(Seq(a, s), l, st, clock) == Call(s, l, st, clock)
    ensures Call(Seq(Seq(a, b), s), l, st, clock) == Call(Seq(a, Seq(b, s)), l, st, clock)
  {
    var m := Machine(l, 1, st);
    if l !in Labels(a) { SeekPasses(a, m, clock, l); }
    TwoSteps(a, s, Seek(l), m, clock);
    ThreeSteps(a, b, s, Seek(l), m, clock);
  }

  /** A jump to a label of a statement ends inside it. */
  lemma JumpLands<S>(s: Stmt<S>, l: nat, m: Machine<S>, clock: nat)
    requires WellFormed(s) && l in Labels(s) && m.flag == 1 && m.lc == l
    ensures Exec(s, Seek(l), m, clock).Fall? ==> Exec(s, Seek(l), m, clock).mode == Run
  {
    SeekAgrees(s, l, m, clock, []);
  }

  // ----- replacing one wait by another, anywhere in a body -----

  /** The body with the statement of label `l` replaced. */
  function Swapped<S>(s: Stmt<S>, l: nat, t: Stmt<S>): Stmt<S> {
    match s
    case Seq(a, b) => Seq(Swapped(a, l, t), Swapped(b, l, t))
    case If(cond, a, b) => If(cond, Swapped(a, l, t), Swapped(b, l, t))
    case While(cond, b) => While(cond, Swapped(b, l, t))
    case WaitUntil(k, _) => if k == l then t else s
    case Yield(k) => if k == l then t else s
    case YieldUntil(k, _) => if k == l then t else s
    case _ => s
  }

  /** The statement with label `l`, if there is one. */
  function At<S>(s: Stmt<S>, l: nat): Option<Stmt<S>> {
    match s
    case Seq(a, b) => if l in Labels(a) then At(a, l) else At(b, l)
    case If(_, a, b) => if l in Labels(a) then At(a, l) else At(b, l)
    case While(_, b) => At(b, l)
    case WaitUntil(k, _) => if k == l then Some(s) else None
    case Yield(k) => if k == l then Some(s) else None
    case YieldUntil(k, _) => if k == l then Some(s) else None
    case _ => None
  }

  /** If `l` is a label at all, it is that of `u`. */
  ghost predicate OnlyAt<S>(s: Stmt<S>, l: nat, u: Stmt<S>) { l in Labels(s) ==> At(s, l) == Some(u) }

  lemma {:induction false} SwappedLabels<S>(s: Stmt<S>, l: nat, t: Stmt<S>)
    requires Labels(t) == {l}
    ensures Labels(Swapped(s, l, t)) == Labels(s) && (l !in Labels(s) ==> Swapped(s, l, t) == s)
  {
    match s
    case Seq(a, b) => SwappedLabels(a, l, t); SwappedLabels(b, l, t);
    case If(_, a, b) => SwappedLabels(a, l, t); SwappedLabels(b, l, t);
    case While(_, b) => SwappedLabels(b, l, t);
    case _ =>
  }

  /** Reached by execution, PT_YIELD_UNTIL does what PT_YIELD does. */
  lemma {:induction false} YieldUntilRuns<S>(s: Stmt<S>, l: nat, cond: S -> (bool, S), m: Machine<S>, clock: nat)
    requires WellFormed(s) && OnlyAt(s, l, YieldUntil(l, cond))
    ensures Exec(Swapped(s, l, Yield(l)), Run, m, clock) == Exec(s, Run, m, clock)
    decreases clock, s
  {
    var t: Stmt<S> := Yield(l);
    match s
    case Seq(a, b) =>
      YieldUntilRuns(a, l, cond, m, clock);
      var r := Exec(a, Run, m, clock);
      SavedIsIgnored(a, m, 0, clock);
      if r.Fall? { YieldUntilRuns(b, l, cond, r.m, r.clock); }
    case If(c, a, b) =>
      var (v, st) := c(m.st);
      YieldUntilRuns(if v then a else b, l, cond, m.(st := st), clock);
    case While(c, body) =>
      var (v, st) := c(m.st);
      if v && clock > 0 {
        YieldUntilRuns(body, l, cond, m.(st := st), clock - 1);
        var r := Exec(body, Run, m.(st := st), clock - 1);
        if r.Fall? { YieldUntilRuns(s, l, cond, r.m, r.clock); }
      }
    case _ =>
  }

  /** A jump to another label does not notice the difference. */
  lemma {:induction false} YieldUntilSeeks<S>(s: Stmt<S>, l: nat, cond: S -> (bool, S), j: nat, m: Machine<S>,
                                               clock: nat)
    requires WellFormed(s) && 0 < l < 0x1_0000 && OnlyAt(s, l, YieldUntil(l, cond))
    requires j in Labels(s) && j != l && m.flag == 1 && m.lc == j
    ensures Exec(Swapped(s, l, Yield(l)), Seek(j), m, clock) == Exec(s, Seek(j), m, clock)
  {
    var t: Stmt<S> := Yield(l);
    LabelsInRange(s, j);
    JumpLands(s, j, m, clock);
    match s
    case Seq(a, b) =>
      SwappedLabels(a, l, t);
      if j in Labels(a) {
        YieldUntilSeeks(a, l, cond, j, m, clock);
        var r := Exec(a, Seek(j), m, clock);
        JumpLands(a, j, m, clock);
        if r.Fall? { YieldUntilRuns(b, l, cond, r.m, r.clock); }
      } else {
        SeekPasses(a, m, clock, j);
        SwappedPasses(a, l, m, clock, j);
        YieldUntilSeeks(b, l, cond, j, m, clock);
      }
    case If(_, a, b) =>
      SwappedLabels(a, l, t);
      YieldUntilSeeks(if j in Labels(a) then a else b, l, cond, j, m, clock);
    case While(_, body) =>
      SwappedLabels(body, l, t);
      YieldUntilSeeks(body, l, cond, j, m, clock);
      var r := Exec(body, Seek(j), m, clock);
      if r.Fall? { YieldUntilRuns(s, l, cond, r.m, r.clock); }
    case _ =>
  }

  lemma {:induction false} SwappedPasses<S>(s: Stmt<S>, l: nat, m: Machine<S>, clock: nat, j: nat)
    requires WellFormed(s) && 0 < l < 0x1_0000 && j < 0x1_0000 && j !in Labels(s)
    ensures Exec(Swapped(s, l, Yield(l)), Seek(j), m, clock) == Fall(m, Seek(j), clock)
  {
    SwappedLabels(s, l, Yield(l));
    SwappedFits(s, l);
    SeekPasses(Swapped(s, l, Yield(l)), m, clock, j);
  }

  lemma {:induction false} SwappedFits<S>(s: Stmt<S>, l: nat)
    requires WellFormed(s) && 0 < l < 0x1_0000
    ensures WellFormed(Swapped(s, l, Yield(l)))
  {
    var t: Stmt<S> := Yield(l);
    match s
    case Seq(a, b) => SwappedFits(a, l); SwappedFits(b, l); SwappedLabels(a, l, t); SwappedLabels(b, l, t);
    case If(_, a, b) => SwappedFits(a, l); SwappedFits(b, l); SwappedLabels(a, l, t); SwappedLabels(b, l, t);
    case While(_, b) => SwappedFits(b, l);
    case _ =>
  }

  /** The call that jumps to it goes on behind it exactly if the condition holds. */
  lemma {:induction false} YieldUntilResumes<S>(s: Stmt<S>, l: nat, cond: S -> (bool, S), m: Machine<S>, clock: nat)
    requires WellFormed(s) && l in Labels(s) && At(s, l) == Some(YieldUntil(l, cond)) && m.flag == 1 && m.lc == l
    ensures var (v, st') := cond(m.st);
            Exec(s, Seek(l), m, clock) ==
            if v then Exec(Swapped(s, l, Yield(l)), Seek(l), m.(st := st'), clock)
            else Return(Yielded, m.(st := st'), clock)
  {
    var t: Stmt<S> := Yield(l);
    var (v, st') := cond(m.st);
    var m' := m.(st := st');
    LabelsInRange(s, l);
    match s
    case Seq(a, b) =>
      SwappedLabels(a, l, t);
      if l in Labels(a) {
        YieldUntilResumes(a, l, cond, m, clock);
        var r := Exec(a, Seek(l), m, clock);
        JumpLands(a, l, m, clock);
        if r.Fall? { YieldUntilRuns(b, l, cond, r.m, r.clock); }
      } else {
        SeekPasses(a, m, clock, l);
        SwappedPasses(a, l, m', clock, l);
        YieldUntilResumes(b, l, cond, m, clock);
      }
    case If(_, a, b) =>
      SwappedLabels(a, l, t);
      YieldUntilResumes(if l in Labels(a) then a else b, l, cond, m, clock);
    case While(_, body) =>
      SwappedLabels(body, l, t);
      YieldUntilResumes(body, l, cond, m, clock);
      var r := Exec(body, Seek(l), m, clock);
      if r.Fall? { YieldUntilRuns(s, l, cond, r.m, r.clock); }
    case _ =>
  }

  /**
   * PT_YIELD_UNTIL anywhere in a body, against PT_YIELD in its place: a call that does not start there reports the
   * same, so it returns where it comes to the yield, whatever the condition; a call that starts there
   * yields again if the condition does not hold, and does what the other body does if it holds.
   */
  lemma YieldUntilIs<S>(body: Stmt<S>, l: nat, cond: S -> (bool, S), lc: nat, st: S, clock: nat)
    requires WellFormed(body) && l in Labels(body) && At(body, l) == Some(YieldUntil(l, cond))
    requires lc == 0 || lc in Labels(body)
    ensures var plain := Swapped(body, l, Yield(l));
            && WellFormed(plain) && YieldAt(plain, l)
            && (lc != l ==> Call(body, lc, st, clock) == Call(plain, lc, st, clock))
            && var (v, st') := cond(st);
               Call(body, l, st, clock) == if v then Call(plain, l, st', clock) else Scheduled(Yielded, l, st')
  {
    LabelsInRange(body, l);
    SwappedFits(body, l);
    SwappedYields(body, l);
    if lc == 0 { YieldUntilRuns(body, l, cond, Machine(0, 1, st), clock); }
    else if lc != l { YieldUntilSeeks(body, l, cond, lc, Machine(lc, 1, st), clock); }
    YieldUntilResumes(body, l, cond, Machine(l, 1, st), clock);
  }

  lemma {:induction false} SwappedYields<S>(s: Stmt<S>, l: nat)
    requires l in Labels(s)
    ensures YieldAt(Swapped(s, l, Yield(l)), l)
  {
    var t: Stmt<S> := Yield(l);
    match s
    case Seq(a, b) => SwappedLabels(a, l, t); SwappedYields(if l in Labels(a) then a else b, l);
    case If(_, a, b) => SwappedLabels(a, l, t); SwappedYields(if l in Labels(a) then a else b, l);
    case While(_, b) => SwappedYields(b, l);
    case _ =>
  }

  /** Over every run, PT_YIELD_UNTIL with a condition that always holds shows what PT_YIELD shows. */
  lemma {:induction false} YieldUntilTrue<S>(body: Stmt<S>, l: nat, cond: S -> (bool, S), lc: nat, st: S,
                                              envs: seq<S -> S>, clock: nat)
    requires WellFormed(body) && l in Labels(body) && At(body, l) == Some(YieldUntil(l, cond))
    requires (lc == 0 || lc in Labels(body)) && forall x :: cond(x) == (true, x)
    ensures RunCalls(body, lc, st, envs, clock) == RunCalls(Swapped(body, l, Yield(l)), lc, st, envs, clock)
    decreases |envs|
  {
    hide Call, At, Swapped;
    if envs != [] {
      var st0 := envs[0](st);
      YieldUntilIs(body, l, cond, lc, st0, clock);
      var r := Call(body, lc, st0, clock);
      StaysInside(body, lc, st0, clock);
      if r.Scheduled? { YieldUntilTrue(body, l, cond, r.lc, r.st, envs[1..], clock); }
    }
  }

  lemma StaysInside<S>(body: Stmt<S>, lc: nat, st: S, clock: nat)
    requires WellFormed(body) && (lc == 0 || lc in Labels(body))
    ensures var r := Call(body, lc, st, clock); r.Scheduled? ==> r.lc == 0 || r.lc in Labels(body)
  {
    hide Call, Resume;
    CallIsResume(body, lc, if lc == 0 then [Body(body)] else From(body, lc), st, clock);
  }

  // ----- line numbers that do not fit into sixteen bits -----

  /** The next call goes on behind a yield exactly if the line number of the yield fits. */
  lemma ResumesIff<S>(l: nat, act: S -> S, st: S, clock: nat)
    requires l > 0 && act(st) != st
    ensures var body := Seq(Yield(l), Do(act));
            var r := Call(body, 0, st, clock);
            && r.Scheduled? && r.status == Yielded && r.st == st
            && (Call(body, r.lc, st, clock) == Scheduled(Ended, 0, act(st)) <==> l < 0x1_0000)
  {
    var k, body := l % 0x1_0000, Seq(Yield(l), Do(act));
    var m, later := Machine(0, 1, st), Machine(k, 1, st);
    assert Exec(Yield(l), Run, m, clock) == Return(Yielded, Machine(k, 0, st), clock);
    if k == 0 {
      assert Call(body, 0, st, clock) == Scheduled(Yielded, 0, st);
    } else if k == l {
      assert Exec(Yield(l), Seek(k), later, clock) == Fall(later, Run, clock);
      assert Exec(Do(act), Run, later, clock) == Fall(later.(st := act(st)), Run, clock);
    } else {
      assert Exec(Yield(l), Seek(k), later, clock) == Fall(later, Seek(k), clock);
      assert Exec(Do(act), Seek(k), later, clock) == Fall(later, Seek(k), clock);
    }
  }

  /** Two yields 65536 lines apart: every call from the second on redoes what is between them, and none ends. */
  lemma LinesCollide<S>(l: nat, act: S -> S, st: S, clock: nat)
    requires 0 < l < 0x1_0000
    ensures var body := Seq(Yield(l), Seq(Do(act), Yield(0x1_0000 + l)));
            && Call(body, 0, st, clock) == Scheduled(Yielded, l, st)
            && Call(body, l, st, clock) == Scheduled(Yielded, l, act(st))
  {
    var first: Stmt<S>, last: Stmt<S> := Yield(l), Yield(0x1_0000 + l);
    var m := Machine(l, 1, st);
    assert Exec(first, Run, Machine(0, 1, st), clock) == Return(Yielded, Machine(l, 0, st), clock);
    assert Exec(first, Seek(l), m, clock) == Fall(m, Run, clock);
    assert Exec(last, Run, m.(st := act(st)), clock) == Return(Yielded, Machine(l, 0, act(st)), clock);
    assert Exec(Seq(Do(act), last), Run, m, clock) == Return(Yielded, Machine(l, 0, act(st)), clock);
  }
}
