/**
 * The bounded-buffer program: a producer and a consumer protothread, two counting semaphores and a
 * ring buffer whose one index serves both sides.
 */
module BoundedBuffer {
  import opened Protothread

  // ----- the shared state, and what one item does to it -----

  /** Ring, its index, the next item, both semaphore counts; and the items added and taken so far. */
  datatype State = State(ring: seq<int>, ptr: nat, item: nat, full: int, empty: int, added: seq<int>, taken: seq<int>)

  predicate Accounted(s: State) {
    && s.ptr < |s.ring|
    && 0 <= s.full && 0 <= s.empty && s.full + s.empty == |s.ring|
    && |s.added| == |s.taken| + s.empty
    && s.item == |s.added|
  }

  /** The position after `ptr` in a ring. */
  function Next(ptr: nat, size: nat): (r: nat)
    requires ptr < size
    ensures r < size
  {
    if ptr + 1 == size then 0 else ptr + 1
  }

  lemma NextIsModulo(ptr: nat, size: nat)
    requires ptr < size
    ensures Next(ptr, size) == (ptr + 1) % size
  {
    if ptr + 1 == size { RemainderIs(1, size, 0); } else { RemainderIs(0, size, ptr + 1); }
  }

  lemma RemainderIs(q: nat, size: nat, r: nat)
    requires r < size
    ensures (q * size + r) / size == q && (q * size + r) % size == r
  {
    var x := q * size + r;
    var d := x / size - q;
    assert d * size == r - x % size;
    MultipleBelow(d, size, r - x % size);
  }

  /** The only multiple of `size` strictly between -size and size is zero. */
  lemma MultipleBelow(d: int, size: int, m: int)
    requires 0 < size && d * size == m && -size < m < size
    ensures d == 0
  {
    assert d > 0 ==> d * size >= size;
    assert d < 0 ==> d * size <= -1 * size;
  }

  /** Down on `full`, produce an item and store it, up on `empty`. */
  function Add(s: State): (r: State)
    requires Accounted(s) && s.full > 0
    ensures Accounted(r)
  {
    State(s.ring[s.ptr := s.item], Next(s.ptr, |s.ring|), s.item + 1, s.full - 1, s.empty + 1, s.added + [s.item],
          s.taken)
  }

  /** Down on `empty`, fetch an item and consume it, up on `full`. */
  function Take(s: State): (r: State)
    requires Accounted(s) && s.empty > 0
    ensures Accounted(r)
  {
    State(s.ring, Next(s.ptr, |s.ring|), s.item, s.full + 1, s.empty - 1, s.added, s.taken + [s.ring[s.ptr]])
  }

  function AddN(s: State, n: nat): (r: State)
    requires Accounted(s) && n <= s.full
    ensures Accounted(r) && |r.ring| == |s.ring|
    ensures r.full == s.full - n && r.item == s.item + n && s.added <= r.added && r.taken == s.taken
    decreases n
  {
    if n == 0 then s else AddN(Add(s), n - 1)
  }

  function TakeN(s: State, n: nat): (r: State)
    requires Accounted(s) && n <= s.empty
    ensures Accounted(r) && |r.ring| == |s.ring|
    ensures r.empty == s.empty - n && r.item == s.item && r.added == s.added && s.taken <= r.taken
    decreases n
  {
    if n == 0 then s else TakeN(Take(s), n - 1)
  }

  lemma AddFirst(s: State, n: nat)
    requires Accounted(s) && n <= s.full
    ensures AddN(s, n) == if n == 0 then s else AddN(Add(s), n - 1)
  {
  }

  lemma TakeFirst(s: State, n: nat)
    requires Accounted(s) && n <= s.empty
    ensures TakeN(s, n) == if n == 0 then s else TakeN(Take(s), n - 1)
  {
  }

  function Min(a: int, b: int): int { if a < b then a else b }

  function Code(s: Status): bv8 {
    match s case Waiting => 0 case Yielded => 1 case Exited => 2 case Ended => 3
  }

  /** PT_SCHEDULE of `producer(..) & consumer(..)`: the driver goes on waiting. */
  predicate StillRunning(p: Status, c: Status) { (Code(p) & Code(c)) < Code(Exited) }

  lemma DriverWaitsForBoth(p: Status, c: Status)
    ensures StillRunning(p, c) <==> p == Waiting || p == Yielded || c == Waiting || c == Yielded
  {
  }

  const WAITS := 1

  class Example {
    const numItems: nat
    const buffer: array<int>
    var bufptr: nat
    var nextItem: nat
    var full: nat
    var empty: nat
    var producerLc: nat
    var produced: nat
    var consumerLc: nat
    var consumed: nat
    ghost var added: seq<int>
    ghost var taken: seq<int>

    ghost function Now(): State
      reads this, buffer
    {
      State(buffer[..], bufptr, nextItem, full, empty, added, taken)
    }

    /** A thread that has been suspended waits for a slot or an item that it still needs. */
    ghost predicate ProducerPlaced()
      reads this
    {
      producerLc in {0, WAITS} && (producerLc == WAITS ==> produced < numItems)
    }

    ghost predicate ConsumerPlaced()
      reads this
    {
      consumerLc in {0, WAITS} && (consumerLc == WAITS ==> consumed < numItems)
    }

    ghost predicate Valid()
      reads this, buffer
    {
      Accounted(Now()) && ProducerPlaced() && ConsumerPlaced()
    }

    /** Static storage is zero; the driver has set the semaphores and both threads up. */
    constructor (numItems: nat, bufSize: nat)
      requires bufSize > 0
      ensures Valid() && this.numItems == numItems && fresh(buffer)
      ensures Now() == State(seq(bufSize, i => 0), 0, 0, bufSize, 0, [], [])
      ensures producerLc == consumerLc == 0
    {
      this.numItems := numItems;
      buffer := new int[bufSize](i => 0);
      bufptr, nextItem, produced, consumed := 0, 0, 0, 0;
      empty, full := 0, bufSize;
      producerLc, consumerLc := 0, 0;
      added, taken := [], [];
      new;
      assert buffer[..] == seq(bufSize, i => 0);
    }

    method AddToBuffer(item: int)
      requires bufptr < buffer.Length
      modifies this`bufptr, this`added, buffer
      ensures buffer[..] == old(buffer[..])[old(bufptr) := item]
      ensures bufptr == (old(bufptr) + 1) % buffer.Length && added == old(added) + [item]
    {
      buffer[bufptr] := item;
      bufptr := (bufptr + 1) % buffer.Length;
      added := added + [item];
    }

    method GetFromBuffer() returns (item: int)
      requires bufptr < buffer.Length
      modifies this`bufptr, this`taken
      ensures item == buffer[old(bufptr)]
      ensures bufptr == (old(bufptr) + 1) % buffer.Length && taken == old(taken) + [item]
    {
      item := buffer[bufptr];
      bufptr := (bufptr + 1) % buffer.Length;
      taken := taken + [item];
    }

    method ProduceItem() returns (item: nat)
      modifies this`nextItem
      ensures item == old(nextItem) && nextItem == item + 1
    {
      item := nextItem;
      nextItem := nextItem + 1;
    }

    method AddOne()
      requires Accounted(Now()) && full > 0
      modifies this`full, this`empty, this`nextItem, this`bufptr, this`added, buffer
      ensures Now() == Add(old(Now()))
    {
      NextIsModulo(bufptr, buffer.Length);
      full := full - 1;
      var item := ProduceItem();
      AddToBuffer(item);
      empty := empty + 1;
    }

    method TakeOne()
      requires Accounted(Now()) && empty > 0
      modifies this`full, this`empty, this`bufptr, this`taken
      ensures Now() == Take(old(Now()))
    {
      NextIsModulo(bufptr, buffer.Length);
      empty := empty - 1;
      var _ := GetFromBuffer();
      full := full + 1;
    }

    /** How many items the next call of the producer adds. */
    ghost function Producible(): int
      reads this
    {
      Min(full, numItems - if producerLc == 0 then 0 else produced)
    }

    ghost function Consumable(): int
      reads this
    {
      Min(empty, numItems - if consumerLc == 0 then 0 else consumed)
    }

    /** One call of the producer: add items until the buffer is full or all are produced. */
    method Producer() returns (status: Status)
      requires Valid()
      modifies this`bufptr, this`nextItem, this`full, this`empty, this`producerLc, this`produced, this`added, buffer
      ensures Valid() && 0 <= old(Producible()) <= old(full)
      ensures Now() == AddN(old(Now()), old(Producible()))
      ensures produced == old(Producible() + if producerLc == 0 then 0 else produced)
      ensures status == if produced == numItems then Ended else Waiting
      ensures producerLc == if produced == numItems then 0 else WAITS
    {
      hide Accounted, Add, AddN;
      ghost var left := Producible();
      ghost var goal := AddN(Now(), left);
      var resume := producerLc != 0;
      if !resume { produced := 0; }
      while resume || produced < numItems
        invariant Accounted(Now()) && ConsumerPlaced() && producerLc in {0, WAITS}
        invariant resume ==> producerLc == WAITS && produced < numItems
        invariant 0 <= left == Min(full, numItems - produced)
        invariant AddN(Now(), left) == goal
        invariant produced + left == old(Producible() + if producerLc == 0 then 0 else produced)
        decreases numItems - produced, resume
      {
        if !resume { producerLc := WAITS; }
        resume := false;
        AddFirst(Now(), left);
        if !(full > 0) { return Waiting; }
        AddOne();
        produced := produced + 1;
        left := left - 1;
      }
      AddFirst(Now(), left);
      producerLc := 0;
      return Ended;
    }

    /** One call of the consumer: take items until the buffer is empty or all are consumed. */
    method Consumer() returns (status: Status)
      requires Valid()
      modifies this`bufptr, this`full, this`empty, this`consumerLc, this`consumed, this`taken
      ensures Valid() && 0 <= old(Consumable()) <= old(empty)
      ensures Now() == TakeN(old(Now()), old(Consumable()))
      ensures consumed == old(Consumable() + if consumerLc == 0 then 0 else consumed)
      ensures status == if consumed == numItems then Ended else Waiting
      ensures consumerLc == if consumed == numItems then 0 else WAITS
    {
      hide Accounted, Take, TakeN;
      ghost var left := Consumable();
      ghost var goal := TakeN(Now(), left);
      var resume := consumerLc != 0;
      if !resume { consumed := 0; }
      while resume || consumed < numItems
        invariant Accounted(Now()) && ProducerPlaced() && consumerLc in {0, WAITS}
        invariant resume ==> consumerLc == WAITS && consumed < numItems
        invariant 0 <= left == Min(empty, numItems - consumed)
        invariant TakeN(Now(), left) == goal
        invariant consumed + left == old(Consumable() + if consumerLc == 0 then 0 else consumed)
        decreases numItems - consumed, resume
      {
        if !resume { consumerLc := WAITS; }
        resume := false;
        TakeFirst(Now(), left);
        if !(empty > 0) { return Waiting; }
        TakeOne();
        consumed := consumed + 1;
        left := left - 1;
      }
      TakeFirst(Now(), left);
      consumerLc := 0;
      return Ended;
    }

    /** Whatever the order of the calls, the semaphores account for every slot and every item. */
    method AnySchedule(producerTurn: seq<bool>)
      requires Valid()
      modifies this, buffer
      ensures full + empty == buffer.Length && |added| - |taken| == empty
      ensures Valid() && old(added) <= added && old(taken) <= taken
    {
      for i := 0 to |producerTurn|
        invariant Valid() && old(added) <= added && old(taken) <= taken
      {
        if producerTurn[i] {
          var _ := Producer();
        } else {
          var _ := Consumer();
        }
      }
    }
  }

  // ----- the driver: producer first, then consumer, round after round -----

  function Items(from: int, n: nat): (r: seq<int>)
    ensures |r| == n
  {
    seq(n, k => from + k)
  }

  /** A position that may have run past the end of the ring once. */
  function Wrap(x: nat, size: nat): nat {
    if x < size then x else x - size
  }

  /** Adding without wrapping around fills consecutive cells with consecutive items. */
  lemma {:induction false} AddingRun(s: State, n: nat)
    requires Accounted(s) && n <= s.full && s.ptr + n <= |s.ring|
    ensures var r := AddN(s, n);
            && r.ptr == (if n == 0 then s.ptr else Wrap(s.ptr + n, |s.ring|))
            && r.empty == s.empty + n && r.added == s.added + Items(s.item, n)
            && forall j :: 0 <= j < |s.ring| ==>
                 r.ring[j] == if s.ptr <= j < s.ptr + n then s.item + (j - s.ptr) else s.ring[j]
    decreases n
  {
    if n == 0 {
      assert s.added + Items(s.item, 0) == s.added;
    } else {
      var t := Add(s);
      assert [s.item] + Items(s.item + 1, n - 1) == Items(s.item, n);
      assert s.added + Items(s.item, n) == t.added + Items(t.item, n - 1);
      if n > 1 { AddingRun(t, n - 1); } else { assert t.added + Items(t.item, 0) == t.added; }
    }
  }

  /** The `n` cells of a ring from position `ptr` on. */
  function Cells(ring: seq<int>, ptr: nat, n: nat): (r: seq<int>)
    requires ptr < |ring|
    ensures |r| == n
    decreases n
  {
    if n == 0 then [] else [ring[ptr]] + Cells(ring, Next(ptr, |ring|), n - 1)
  }

  lemma {:induction false} CellAt(ring: seq<int>, ptr: nat, n: nat, k: nat)
    requires ptr < |ring| && k < n <= |ring|
    ensures Cells(ring, ptr, n)[k] == ring[Wrap(ptr + k, |ring|)]
    decreases n
  {
    if k > 0 { CellAt(ring, Next(ptr, |ring|), n - 1, k - 1); }
  }

  /** Taking reads consecutive cells and leaves the ring alone. */
  lemma {:induction false} TakingRun(s: State, n: nat)
    requires Accounted(s) && n <= s.empty
    ensures var r := TakeN(s, n);
            && r.ring == s.ring && r.full == s.full + n
            && r.ptr == Wrap(s.ptr + n, |s.ring|)
            && r.taken == s.taken + Cells(s.ring, s.ptr, n)
    decreases n
  {
    if n > 0 {
      var t := Take(s);
      TakingRun(t, n - 1);
      var rest := Cells(t.ring, t.ptr, n - 1);
      assert t.taken + rest == s.taken + ([s.ring[s.ptr]] + rest);
    }
  }

  /** The shared state when `done` items have gone through in full rounds. */
  ghost predicate BetweenRounds(s: State, size: nat, done: nat) {
    && size > 0 && |s.ring| == size && s.ptr == 0 && s.item == done && s.full == size && s.empty == 0
    && s.added == s.taken == Items(0, done)
    && forall j :: 0 <= j < size ==> s.ring[j] == if done == 0 then 0 else done - size + j
  }

  /** A round adds `n` items, from the start of the ring, and then takes the next `n` cells. */
  lemma RoundTakes(s: State, size: nat, done: nat, n: nat)
    requires BetweenRounds(s, size, done) && n <= size
    ensures Accounted(s) && Accounted(AddN(s, n)) && AddN(s, n).empty == n
    ensures var r := TakeN(AddN(s, n), n);
            && |r.ring| == size && r.item == done + n && r.full == size && r.empty == 0
            && r.ptr == Wrap(Wrap(n, size) + n, size)
            && r.added == Items(0, done + n)
            && r.taken == Items(0, done) + Cells(r.ring, Wrap(n, size), n)
            && forall j :: 0 <= j < size ==> r.ring[j] == if j < n then done + j else s.ring[j]
  {
    AddingRun(s, n);
    TakingRun(AddN(s, n), n);
    assert Items(0, done) + Items(done, n) == Items(0, done + n);
  }

  /** All that a full round adds comes out again; of what a shorter round adds, something else does. */
  lemma OneRound(s: State, size: nat, done: nat, n: nat)
    requires BetweenRounds(s, size, done) && n <= size
    ensures size > 0 && Accounted(s) && s.full == size && s.empty == 0 && Accounted(AddN(s, n)) && AddN(s, n).empty == n
    ensures var r := TakeN(AddN(s, n), n);
            && r.added == Items(0, done + n) && |r.taken| == done + n
            && (n == size ==> BetweenRounds(r, size, done + n))
            && (r.taken == r.added <==> n == size || n == 0 || (done == 0 && n == 1))
  {
    hide AddN, TakeN;
    RoundTakes(s, size, done, n);
    var r := TakeN(AddN(s, n), n);
    var cells := Cells(r.ring, Wrap(n, size), n);
    forall k | 0 <= k < n ensures cells[k] == r.ring[Wrap(Wrap(n, size) + k, size)] {
      CellAt(r.ring, Wrap(n, size), n, k);
    }
    if n == size || n == 0 || (done == 0 && n == 1) {
      assert cells == Items(done, n);
      assert Items(0, done) + Items(done, n) == Items(0, done + n);
    } else {
      var k := if done == 0 then 1 else 0;
      assert r.taken[done + k] == cells[k] != done + k == r.added[done + k];
    }
  }

  /**
   * The whole program, for any number of items and any buffer size. Every item is added once and in
   * order, and producer and consumer end in the same round. What is consumed is what was produced
   * exactly when the rounds come out even, the one exception being a single item: it is number 0,
   * and an unused cell holds 0.
   */
  method RunExample(numItems: nat, bufSize: nat) returns (e: Example, rounds: nat)
    requires bufSize > 0
    ensures rounds == if numItems == 0 then 1 else (numItems + bufSize - 1) / bufSize
    ensures e.added == Items(0, numItems) && |e.taken| == numItems
    ensures e.taken == e.added <==> numItems % bufSize == 0 || numItems == 1
  {
    e := new Example(numItems, bufSize);
    rounds := 0;
    ghost var done := 0;
    NothingDone(e.Now(), bufSize);
    var running := true;
    while running
      invariant e.numItems == numItems
      invariant running ==> RoundStarts(e, bufSize, done, rounds)
      invariant !running ==> Over(e, bufSize, rounds)
      decreases running, numItems - done
    {
      running, done := Round(e, bufSize, done, rounds);
      rounds := rounds + 1;
    }
  }

  ghost predicate RoundStarts(e: Example, size: nat, done: nat, rounds: nat)
    reads e, e.buffer
  {
    && e.Valid() && BetweenRounds(e.Now(), size, done) && done == rounds * size
    && (done < e.numItems || done == e.numItems == 0)
    && (if done == 0 then e.producerLc == e.consumerLc == 0
        else e.producerLc == e.consumerLc == WAITS && e.produced == e.consumed == done)
  }

  ghost predicate Over(e: Example, size: nat, rounds: nat)
    reads e
    requires size > 0
  {
    && rounds == (if e.numItems == 0 then 1 else (e.numItems + size - 1) / size)
    && e.added == Items(0, e.numItems) && |e.taken| == e.numItems
    && (e.taken == e.added <==> e.numItems % size == 0 || e.numItems == 1)
  }

  lemma NothingDone(s: State, size: nat)
    requires size > 0 && s == State(seq(size, i => 0), 0, 0, size, 0, [], [])
    ensures BetweenRounds(s, size, 0)
  {
    assert Items(0, 0) == [];
  }

  /** One turn of the driver: it goes on until both threads have ended in the same round. */
  method Round(e: Example, size: nat, ghost done: nat, ghost rounds: nat) returns (running: bool, ghost done': nat)
    requires RoundStarts(e, size, done, rounds)
    modifies e, e.buffer
    ensures done <= done' <= e.numItems
    ensures running ==> done < done' && RoundStarts(e, size, done', rounds + 1)
    ensures !running ==> size > 0 && Over(e, size, rounds + 1)
  {
    hide AddN, TakeN, Accounted, BetweenRounds, Items;
    ghost var s, n := e.Now(), Min(size, e.numItems - done);
    OneRound(s, size, done, n);
    RoundCount(rounds, size, done, n, e.numItems);
    var p := e.Producer();
    var c := e.Consumer();
    running := StillRunning(p, c);
    DriverWaitsForBoth(p, c);
    done' := done + n;
  }

  lemma RoundCount(rounds: nat, size: nat, done: nat, n: nat, total: nat)
    requires size > 0 && done == rounds * size && n <= size && done + n <= total
    ensures (rounds + 1) * size == done + size
    ensures done + n == total && n > 0 ==>
              (total + size - 1) / size == rounds + 1 && total % size == if n == size then 0 else n
  {
    if done + n == total && n > 0 {
      RemainderIs(rounds + 1, size, n - 1);
      if n == size { RemainderIs(rounds + 1, size, 0); } else { RemainderIs(rounds, size, n); }
    }
  }
}
