/**
 * Producer and consumer written with the macros: what a call of their thread functions does is what
 * the methods of `Example` do.
 */
module ExampleThreads {
  import opened Protothread
  import opened BoundedBuffer

  /** The buffer with its semaphores, and the static loop counters of both threads. */
  datatype Shared = Shared(buf: State, produced: nat, consumed: nat)

  function FullWait(): Stmt<Shared> { WaitUntil(WAITS, (p: Shared) => (p.buf.full > 0, p)) }

  function EmptyWait(): Stmt<Shared> { WaitUntil(WAITS, (p: Shared) => (p.buf.empty > 0, p)) }

  /** `--full; add_to_buffer(produce_item()); ++empty; ++produced`: reached with a slot in hand. */
  function Produce(p: Shared): Shared {
    if Accounted(p.buf) && p.buf.full > 0 then p.(buf := Add(p.buf), produced := p.produced + 1) else p
  }

  function Consume(p: Shared): Shared {
    if Accounted(p.buf) && p.buf.empty > 0 then p.(buf := Take(p.buf), consumed := p.consumed + 1) else p
  }

  function ProducerLoop(n: nat): Stmt<Shared> {
    While((p: Shared) => (p.produced < n, p), Seq(FullWait(), Do(Produce)))
  }

  function ConsumerLoop(n: nat): Stmt<Shared> {
    While((p: Shared) => (p.consumed < n, p), Seq(EmptyWait(), Do(Consume)))
  }

  function ProducerBody(n: nat): Stmt<Shared> { Seq(Do((p: Shared) => p.(produced := 0)), ProducerLoop(n)) }

  function ConsumerBody(n: nat): Stmt<Shared> { Seq(Do((p: Shared) => p.(consumed := 0)), ConsumerLoop(n)) }

  /** What the producer has to do while it waits for a slot. */
  function AtWait(wait: Stmt<Shared>, act: Shared -> Shared, loop: Stmt<Shared>): seq<Task<Shared>>
    requires wait.WaitUntil?
  {
    [Recheck(wait.cond, Waiting), Body(Do(act)), Body(loop)]
  }

  /** The loop, started with enough budget: it stops before the first item for which there is no room. */
  function LoopResult(p: Shared, n: nat, clock: nat, k: nat): Progress<Shared>
    requires Accounted(p.buf) && k <= p.buf.full && k <= clock
  {
    var p' := p.(buf := AddN(p.buf, k), produced := p.produced + k);
    if p'.produced == n then Finished(Ended, p', clock - k)
    else Suspended(Waiting, AtWait(FullWait(), Produce, ProducerLoop(n)), p', if clock > k then clock - k - 1 else 0)
  }

  lemma LoopHead(wait: Stmt<Shared>, act: Shared -> Shared, loop: Stmt<Shared>, p: Shared, clock: nat)
    requires wait.WaitUntil? && loop.While? && loop.body == Seq(wait, Do(act))
    requires loop.cond(p) == (true, p) && clock > 0
    ensures Resume([Body(loop)], p, clock) == Resume(AtWait(wait, act, loop), p, clock - 1)
  {
    var t0 := [Body(loop)];
    assert t0[1..] == [];
    var t1 := [Body(loop.body), Body(loop)] + [];
    assert t1[0] == Body(loop.body) && t1[1..] == [Body(loop)];
    var t2 := [Body(wait), Body(Do(act))] + [Body(loop)];
    assert t2[0] == Body(wait) && t2[1..] == [Body(Do(act)), Body(loop)];
    var t3 := [Recheck(wait.cond, Waiting)] + t2[1..];
    assert t3 == AtWait(wait, act, loop);
    assert Resume(t0, p, clock) == Resume(t1, p, clock - 1);
    assert Resume(t1, p, clock - 1) == Resume(t2, p, clock - 1);
  }

  lemma AfterWait(wait: Stmt<Shared>, act: Shared -> Shared, loop: Stmt<Shared>, p: Shared, clock: nat)
    requires wait.WaitUntil? && wait.cond(p).1 == p
    ensures Resume(AtWait(wait, act, loop), p, clock) ==
            if wait.cond(p).0 then Resume([Body(loop)], act(p), clock)
            else Suspended(Waiting, AtWait(wait, act, loop), p, clock)
  {
    var t := AtWait(wait, act, loop);
    assert t[0] == Recheck(wait.cond, Waiting) && t[1..] == [Body(Do(act)), Body(loop)];
    assert t[1..][0] == Body(Do(act)) && t[1..][1..] == [Body(loop)];
  }

  lemma LoopEnds(loop: Stmt<Shared>, p: Shared, clock: nat)
    requires loop.While? && loop.cond(p) == (false, p)
    ensures Resume([Body(loop)], p, clock) == Finished(Ended, p, clock)
  {
    assert [Body(loop)][1..] == [];
  }

  lemma {:induction false} ProducerRuns(n: nat, p: Shared, clock: nat)
    requires Accounted(p.buf) && p.produced <= n && clock >= n - p.produced
    ensures Resume([Body(ProducerLoop(n))], p, clock) == LoopResult(p, n, clock, Min(p.buf.full, n - p.produced))
    decreases n - p.produced
  {
    hide Resume;
    var loop := ProducerLoop(n);
    if p.produced == n {
      LoopEnds(loop, p, clock);
    } else {
      LoopHead(FullWait(), Produce, loop, p, clock);
      AfterWait(FullWait(), Produce, loop, p, clock - 1);
      if p.buf.full > 0 {
        var q, k := Produce(p), Min(p.buf.full, n - p.produced);
        ProducerRuns(n, q, clock - 1);
        assert AddN(q.buf, k - 1) == AddN(p.buf, k);
      }
    }
  }

  /** The consumer's loop. */
  function ConsumerResult(p: Shared, n: nat, clock: nat, k: nat): Progress<Shared>
    requires Accounted(p.buf) && k <= p.buf.empty && k <= clock
  {
    var p' := p.(buf := TakeN(p.buf, k), consumed := p.consumed + k);
    if p'.consumed == n then Finished(Ended, p', clock - k)
    else Suspended(Waiting, AtWait(EmptyWait(), Consume, ConsumerLoop(n)), p', if clock > k then clock - k - 1 else 0)
  }

  lemma {:induction false} ConsumerRuns(n: nat, p: Shared, clock: nat)
    requires Accounted(p.buf) && p.consumed <= n && clock >= n - p.consumed
    ensures Resume([Body(ConsumerLoop(n))], p, clock) == ConsumerResult(p, n, clock, Min(p.buf.empty, n - p.consumed))
    decreases n - p.consumed
  {
    hide Resume;
    var loop := ConsumerLoop(n);
    if p.consumed == n {
      LoopEnds(loop, p, clock);
    } else {
      LoopHead(EmptyWait(), Consume, loop, p, clock);
      AfterWait(EmptyWait(), Consume, loop, p, clock - 1);
      if p.buf.empty > 0 {
        var q, k := Consume(p), Min(p.buf.empty, n - p.consumed);
        ConsumerRuns(n, q, clock - 1);
        assert TakeN(q.buf, k - 1) == TakeN(p.buf, k);
      }
    }
  }

  lemma BodyStarts(act: Shared -> Shared, loop: Stmt<Shared>, p: Shared, clock: nat)
    ensures Resume([Body(Seq(Do(act), loop))], p, clock) == Resume([Body(loop)], act(p), clock)
  {
    var body := Seq(Do(act), loop);
    assert [Body(body)][1..] == [];
    var t := [Body(Do(act)), Body(loop)] + [];
    assert t[0] == Body(Do(act)) && t[1..] == [Body(loop)];
    assert Resume([Body(body)], p, clock) == Resume(t, p, clock);
  }

  /** Both bodies wait in one place only. */
  lemma OneWait(init: Shared -> Shared, wait: Stmt<Shared>, act: Shared -> Shared, cond: Shared -> (bool, Shared))
    requires wait.WaitUntil? && wait.line == WAITS
    ensures var loop := While(cond, Seq(wait, Do(act)));
            var body := Seq(Do(init), loop);
            && WellFormed(body) && Labels(body) == {WAITS} && WAITS in Labels(body)
            && From(body, WAITS) == AtWait(wait, act, loop)
  {
    var loop := While(cond, Seq(wait, Do(act)));
    var body := Seq(Do(init), loop);
    var inner := Seq(wait, Do(act));
    assert Labels(wait) == {WAITS} && Labels(Do(act)) == {} && Labels(inner) == {WAITS};
    assert WellFormed(wait) && WellFormed(Do(act)) && WellFormed(Do(init));
    assert WellFormed(inner) && WellFormed(loop) && Labels(loop) == {WAITS} && Labels(Do(init)) == {};
    assert From(inner, WAITS) == [Recheck(wait.cond, Waiting)] + [Body(Do(act))];
  }

  /** A call of the producer's thread function is what `Example.Producer` promises. */
  lemma ProducerIsThread(n: nat, lc: nat, p: Shared, clock: nat)
    requires Accounted(p.buf) && clock > n && lc in {0, WAITS} && (lc == WAITS ==> p.produced < n)
    ensures var had := if lc == 0 then 0 else p.produced;
            var k := Min(p.buf.full, n - had);
            && 0 <= k <= p.buf.full
            && Call(ProducerBody(n), lc, p, clock) ==
               Scheduled(if had + k == n then Ended else Waiting, if had + k == n then 0 else WAITS,
                         p.(buf := AddN(p.buf, k), produced := had + k))
  {
    hide Resume, Call, AddN, TakeN, WellFormed, Labels, From;
    var body, loop := ProducerBody(n), ProducerLoop(n);
    OneWait(body.first.act, FullWait(), Produce, loop.cond);
    var todo := if lc == 0 then [Body(body)] else AtWait(FullWait(), Produce, loop);
    var start := if lc == 0 then p.(produced := 0) else p;
    CallIsResume(body, lc, todo, p, clock);
    if lc == 0 {
      BodyStarts(body.first.act, loop, p, clock);
      ProducerRuns(n, start, clock);
    } else {
      LoopHead(FullWait(), Produce, loop, p, clock + 1);
      ProducerRuns(n, p, clock + 1);
    }
  }

  /** A call of the consumer's thread function is what `Example.Consumer` promises. */
  lemma ConsumerIsThread(n: nat, lc: nat, p: Shared, clock: nat)
    requires Accounted(p.buf) && clock > n && lc in {0, WAITS} && (lc == WAITS ==> p.consumed < n)
    ensures var had := if lc == 0 then 0 else p.consumed;
            var k := Min(p.buf.empty, n - had);
            && 0 <= k <= p.buf.empty
            && Call(ConsumerBody(n), lc, p, clock) ==
               Scheduled(if had + k == n then Ended else Waiting, if had + k == n then 0 else WAITS,
                         p.(buf := TakeN(p.buf, k), consumed := had + k))
  {
    hide Resume, Call, AddN, TakeN, WellFormed, Labels, From;
    var body, loop := ConsumerBody(n), ConsumerLoop(n);
    OneWait(body.first.act, EmptyWait(), Consume, loop.cond);
    var todo := if lc == 0 then [Body(body)] else AtWait(EmptyWait(), Consume, loop);
    var start := if lc == 0 then p.(consumed := 0) else p;
    CallIsResume(body, lc, todo, p, clock);
    if lc == 0 {
      BodyStarts(body.first.act, loop, p, clock);
      ConsumerRuns(n, start, clock);
    } else {
      LoopHead(EmptyWait(), Consume, loop, p, clock + 1);
      ConsumerRuns(n, p, clock + 1);
    }
  }
}
