/**
 * Hierarchical protothreads: PT_SPAWN initialises a child and schedules it from a wait of the parent.
 * The parent behaves as if the child's blocking body stood in its place.
 */
module Spawn {
  import opened Common
  import opened Protothread

  /** The saved continuation of the child is part of the state its parent works on. */
  datatype Family<!S> = Family(childLc: nat, st: S)

  /** The condition of PT_WAIT_THREAD, the negation of PT_SCHEDULE: call the child; has it exited or ended? */
  function Schedule<S>(child: Stmt<S>, clock: nat, p: Family<S>): (bool, Family<S>) {
    match Call(child, p.childLc, p.st, clock)
    case Scheduled(status, lc, st) => (status.Exited? || status.Ended?, Family(lc, st))
    case Diverges => (false, p)
  }

  function ChildDone<S>(child: Stmt<S>, clock: nat): Family<S> -> (bool, Family<S>) {
    p => Schedule(child, clock, p)
  }

  function PtSpawn<S>(line: nat, child: Stmt<S>, clock: nat): Stmt<Family<S>> {
    Seq(Do((p: Family<S>) => Family(0, p.st)), WaitUntil(line, ChildDone(child, clock)))
  }

  /** On this run, every call of the child up to the one that ends it returns. */
  ghost predicate Returns<S>(child: Stmt<S>, todo: seq<Task<S>>, st: S, envs: seq<S -> S>, clock: nat)
    decreases |envs|
  {
    envs == [] ||
    match Resume(todo, envs[0](st), clock)
    case OutOfTime => false
    case Suspended(_, todo', st', _) => Returns(child, todo', st', envs[1..], clock)
    case Finished(status, st', _) => status == Waiting ==> Returns(child, [Body(child)], st', envs[1..], clock)
  }

  /** What the waiting parent still has to do. */
  function Waits<S>(child: Stmt<S>, clock: nat, rest: seq<Task<Family<S>>>): seq<Task<Family<S>>> {
    [Recheck(ChildDone(child, clock), Waiting)] + rest
  }

  /** The parent's turn shows the child's turn: it goes on waiting, or goes on behind the wait at once. */
  ghost predicate ShowsTurn<S>(child: Stmt<S>, clock: nat, turn: Progress<S>, parent: Progress<Family<S>>,
                               rest: seq<Task<Family<S>>>, c: nat)
  {
    match turn
    case OutOfTime => false
    case Suspended(_, todo', st', _) =>
      && parent.Suspended? && parent == Suspended(Waiting, Waits(child, clock, rest), parent.st, c)
      && parent.st.st == st' && SamePlace(child, parent.st.childLc, todo')
    case Finished(status, st', _) =>
      if status == Waiting then parent == Suspended(Waiting, Waits(child, clock, rest), Family(0, st'), c)
      else status in {Exited, Ended} && parent == Resume(rest, Family(0, st'), c)
  }

  /** One call of the parent while it waits for the child is one turn of the blocking child. */
  lemma SpawnTurn<S>(child: Stmt<S>, clock: nat, lc: nat, todo: seq<Task<S>>, st: S, rest: seq<Task<Family<S>>>,
                     c: nat)
    requires WellFormed(child) && SamePlace(child, lc, todo) && Resume(todo, st, clock) != OutOfTime
    ensures ShowsTurn(child, clock, Resume(todo, st, clock),
                      Resume(Waits(child, clock, rest), Family(lc, st), c), rest, c)
  {
    var waits := [Recheck(ChildDone(child, clock), Waiting)] + rest;
    assert waits[0] == Recheck(ChildDone(child, clock), Waiting) && waits[1..] == rest;
    CallIsResume(child, lc, todo, st, clock);
    SuspendedStatus(todo, st, clock, child, lc);
  }

  /** A suspended thread waits or yields; only a thread that exits or ends is done. */
  lemma SuspendedStatus<S>(todo: seq<Task<S>>, st: S, clock: nat, child: Stmt<S>, lc: nat)
    requires WellFormed(child) && SamePlace(child, lc, todo)
    ensures Resume(todo, st, clock).Suspended? ==> Resume(todo, st, clock).status in {Waiting, Yielded}
    ensures Resume(todo, st, clock).Finished? ==> Resume(todo, st, clock).status in {Waiting, Exited, Ended}
  {
    if lc != 0 { FromStatuses(child, lc); }
    ResumeStatus(todo, st, clock);
  }

  predicate Statuses<S>(todo: seq<Task<S>>) {
    forall k :: 0 <= k < |todo| && todo[k].Recheck? ==> todo[k].status in {Waiting, Yielded}
  }

  lemma {:induction false} FromStatuses<S>(s: Stmt<S>, l: nat)
    requires l in Labels(s)
    ensures Statuses(From(s, l))
  {
    match s
    case Seq(a, b) => if l in Labels(a) { FromStatuses(a, l); } else { FromStatuses(b, l); }
    case If(_, a, b) => if l in Labels(a) { FromStatuses(a, l); } else { FromStatuses(b, l); }
    case While(_, b) => FromStatuses(b, l);
    case _ =>
  }

  lemma {:induction false} ResumeStatus<S>(todo: seq<Task<S>>, st: S, clock: nat)
    requires Statuses(todo)
    ensures Resume(todo, st, clock).Suspended? ==> Resume(todo, st, clock).status in {Waiting, Yielded}
    ensures Resume(todo, st, clock).Finished? ==> Resume(todo, st, clock).status in {Waiting, Exited, Ended}
    decreases clock, TotalSize(todo)
  {
    if todo != [] {
      var rest := todo[1..];
      match todo[0]
      case Recheck(cond, status) => ResumeStatus(rest, cond(st).1, clock);
      case Body(s) =>
        match s
        case Do(act) => ResumeStatus(rest, act(st), clock);
        case Seq(a, b) =>
          SizeOfTwo(a, b, rest);
          ResumeStatus([Body(a), Body(b)] + rest, st, clock);
        case If(cond, a, b) =>
          var (v, st') := cond(st);
          ResumeStatus([Body(if v then a else b)] + rest, st', clock);
        case While(cond, body) =>
          var (v, st') := cond(st);
          if !v { ResumeStatus(rest, st', clock); }
          else if clock > 0 { ResumeStatus([Body(body), Body(s)] + rest, st', clock - 1); }
        case WaitUntil(_, cond) => ResumeStatus([Recheck(cond, Waiting)] + rest, st, clock);
        case _ =>
    }
  }

  // ----- whole runs -----

  /** An environment that changes the state but not the child's continuation. */
  function LiftOne<S>(env: S -> S): Family<S> -> Family<S> {
    (p: Family<S>) => Family(p.childLc, env(p.st))
  }

  function Lift<S>(envs: seq<S -> S>): (r: seq<Family<S> -> Family<S>>)
    ensures |r| == |envs|
  {
    seq(|envs|, i requires 0 <= i < |envs| => LiftOne(envs[i]))
  }

  /** A report without the child's continuation. */
  function Shown<S>(report: seq<Option<(Status, Family<S>)>>): (r: seq<Option<(Status, S)>>)
    ensures |r| == |report|
  {
    seq(|report|, i requires 0 <= i < |report| =>
      match report[i] case None => None case Some((status, p)) => Some((status, p.st)))
  }

  /**
   * The child's blocking body in place of the spawn: each of its turns is reported as waiting, until it
   * is done; in that turn the parent goes on with `rest`.
   */
  function Inlined<S>(parent: Stmt<Family<S>>, child: Stmt<S>, todo: seq<Task<S>>, rest: seq<Task<Family<S>>>, st: S,
                      envs: seq<S -> S>, clock: nat, c: nat): seq<Option<(Status, S)>>
    decreases |envs|
  {
    if envs == [] then []
    else match Resume(todo, envs[0](st), clock)
      case OutOfTime => [None]
      case Suspended(_, todo', st', _) =>
        [Some((Waiting, st'))] + Inlined(parent, child, todo', rest, st', envs[1..], clock, c)
      case Finished(status, st', _) =>
        if status == Waiting then
          [Some((Waiting, st'))] + Inlined(parent, child, [Body(child)], rest, st', envs[1..], clock, c)
        else
          Shown(RunBlocking(parent, rest, Family(0, st'), Again(envs), c))
  }

  /** The rest of a run whose first turn has been taken already. */
  function Again<S>(envs: seq<S -> S>): seq<Family<S> -> Family<S>>
    requires envs != []
  {
    [(p: Family<S>) => p] + Lift(envs[1..])
  }

  lemma {:induction false} WaitingIsInlined<S>(parent: Stmt<Family<S>>, child: Stmt<S>, lc: nat, todo: seq<Task<S>>,
                                                  rest: seq<Task<Family<S>>>, st: S, envs: seq<S -> S>,
                                                  clock: nat, c: nat)
    requires WellFormed(child) && SamePlace(child, lc, todo) && Returns(child, todo, st, envs, clock)
    ensures Shown(RunBlocking(parent, Waits(child, clock, rest), Family(lc, st), Lift(envs), c))
         == Inlined(parent, child, todo, rest, st, envs, clock, c)
    decreases |envs|
  {
    if envs != [] {
      hide Resume, Call, WellFormed, Labels, From, Waits, Returns, SamePlace, Inlined, RunBlocking;
      var st0 := envs[0](st);
      var waits := Waits(child, clock, rest);
      assert Lift(envs)[0](Family(lc, st)) == Family(lc, st0);
      assert Lift(envs)[1..] == Lift(envs[1..]);
      ReturnsStep(child, todo, st, envs, clock);
      SpawnTurn(child, clock, lc, todo, st0, rest, c);
      RunStep(parent, waits, Family(lc, st), Lift(envs), c);
      InlinedStep(parent, child, todo, rest, st, envs, clock, c);
      match Resume(todo, st0, clock)
      case OutOfTime =>
      case Suspended(_, todo', st', _) =>
        var p := Resume(waits, Family(lc, st0), c).st;
        WaitingIsInlined(parent, child, p.childLc, todo', rest, st', envs[1..], clock, c);
        ShownStep(Waiting, p, RunBlocking(parent, waits, p, Lift(envs[1..]), c));
      case Finished(status, st', _) =>
        if status == Waiting {
          StartsAnew(child);
          WaitingIsInlined(parent, child, 0, [Body(child)], rest, st', envs[1..], clock, c);
          ShownStep(Waiting, Family(0, st'), RunBlocking(parent, waits, Family(0, st'), Lift(envs[1..]), c));
        } else {
          var again := Again(envs);
          assert again[0](Family(0, st')) == Family(0, st') && again[1..] == Lift(envs[1..]);
          RunStep(parent, rest, Family(0, st'), again, c);
        }
    } else {
      assert Lift(envs) == [];
      assert Shown<S>([]) == [];
    }
  }

  lemma ReturnsStep<S>(child: Stmt<S>, todo: seq<Task<S>>, st: S, envs: seq<S -> S>, clock: nat)
    requires envs != [] && Returns(child, todo, st, envs, clock)
    ensures var p := Resume(todo, envs[0](st), clock);
            && !p.OutOfTime?
            && (p.Suspended? ==> Returns(child, p.todo, p.st, envs[1..], clock))
            && (p.Finished? && p.status == Waiting ==> Returns(child, [Body(child)], p.st, envs[1..], clock))
  {
    hide Resume;
  }

  lemma StartsAnew<S>(child: Stmt<S>)
    ensures SamePlace(child, 0, [Body(child)])
  {
  }

  lemma ShownStep<S>(status: Status, p: Family<S>, rest: seq<Option<(Status, Family<S>)>>)
    ensures Shown([Some((status, p))] + rest) == [Some((status, p.st))] + Shown(rest)
  {
  }

  lemma RunStep<S>(body: Stmt<S>, todo: seq<Task<S>>, st: S, envs: seq<S -> S>, clock: nat)
    requires envs != []
    ensures var p, run := Resume(todo, envs[0](st), clock), RunBlocking(body, todo, st, envs, clock);
            && (p.OutOfTime? ==> run == [None])
            && (p.Suspended? ==> run == [Some((p.status, p.st))] + RunBlocking(body, p.todo, p.st, envs[1..], clock))
            && (p.Finished? ==>
                  run == [Some((p.status, p.st))] + RunBlocking(body, [Body(body)], p.st, envs[1..], clock))
  {
    hide Resume;
  }

  lemma InlinedStep<S>(parent: Stmt<Family<S>>, child: Stmt<S>, todo: seq<Task<S>>, rest: seq<Task<Family<S>>>, st: S,
                       envs: seq<S -> S>, clock: nat, c: nat)
    requires envs != []
    ensures var p, run := Resume(todo, envs[0](st), clock), Inlined(parent, child, todo, rest, st, envs, clock, c);
            && (p.OutOfTime? ==> run == [None])
            && (p.Suspended? ==>
                  run == [Some((Waiting, p.st))] + Inlined(parent, child, p.todo, rest, p.st, envs[1..], clock, c))
            && (p.Finished? && p.status == Waiting ==>
                  run == [Some((Waiting, p.st))]
                         + Inlined(parent, child, [Body(child)], rest, p.st, envs[1..], clock, c))
            && (p.Finished? && p.status != Waiting ==>
                  run == Shown(RunBlocking(parent, rest, Family(0, p.st), Again(envs), c)))
  {
    hide Resume, RunBlocking;
  }

  /**
   * Calling a parent that spawns a child shows, call by call, what the blocking child shows in its
   * place, and then what the rest of the parent shows.
   */
  lemma SpawnIsInlined<S>(line: nat, child: Stmt<S>, after: Stmt<Family<S>>, lc: nat, st: S, envs: seq<S -> S>,
                          clock: nat, c: nat)
    requires WellFormed(child) && Returns(child, [Body(child)], st, envs, clock)
    requires 0 < line < 0x1_0000 && WellFormed(after) && line !in Labels(after)
    ensures var parent := Seq(PtSpawn(line, child, clock), after);
            Shown(RunCalls(parent, 0, Family(lc, st), Lift(envs), c))
            == Inlined(parent, child, [Body(child)], [Body(after)], st, envs, clock, c)
  {
    var parent := Seq(PtSpawn(line, child, clock), after);
    RunsAgree(parent, 0, [Body(parent)], Family(lc, st), Lift(envs), c);
    if envs != [] {
      SpawnStarts(line, child, after, Family(lc, envs[0](st)), clock, c);
      assert Lift(envs)[0](Family(lc, st)) == Family(lc, envs[0](st))
             && Lift(envs)[0](Family(0, st)) == Family(0, envs[0](st));
      WaitingIsInlined(parent, child, 0, [Body(child)], [Body(after)], st, envs, clock, c);
    }
  }

  /** The first call sets the child up and begins to wait. */
  lemma SpawnStarts<S>(line: nat, child: Stmt<S>, after: Stmt<Family<S>>, p: Family<S>, clock: nat, c: nat)
    ensures var parent := Seq(PtSpawn(line, child, clock), after);
            Resume([Body(parent)], p, c) == Resume(Waits(child, clock, [Body(after)]), Family(0, p.st), c)
  {
    var spawn := PtSpawn(line, child, clock);
    var parent := Seq(spawn, after);
    var task := Recheck(ChildDone(child, clock), Waiting);
    ResumeSeq(spawn, after, [], p, c);
    assert [Body(spawn), Body(after)] + [] == [Body(spawn)] + [Body(after)];
    ResumeSeq(spawn.first, spawn.second, [Body(after)], p, c);
    var todo := [Body(spawn.first), Body(spawn.second)] + [Body(after)];
    assert todo[0] == Body(spawn.first) && todo[1..] == [Body(spawn.second)] + [Body(after)];
    var todo' := [Body(spawn.second)] + [Body(after)];
    assert todo'[0] == Body(spawn.second) && todo'[1..] == [Body(after)];
  }

  lemma ResumeSeq<S>(a: Stmt<S>, b: Stmt<S>, rest: seq<Task<S>>, st: S, clock: nat)
    ensures Resume([Body(Seq(a, b))] + rest, st, clock) == Resume([Body(a), Body(b)] + rest, st, clock)
  {
    var todo := [Body(Seq(a, b))] + rest;
    assert todo[0] == Body(Seq(a, b)) && todo[1..] == rest;
  }
}
