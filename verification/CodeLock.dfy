/**
 * The code-lock program: a protothread that waits for the keys 1, 4, 2, 3, each within a second of
 * the last, then for half a second, and unlocks. Keys arrive between its calls; the clock is an
 * arbitrary sequence of readings.
 *
 * `Turn` says what a call does in the words of a blocking thread that has one place to wait for each
 * purpose. The class runs the same thread as the program does: nested loops left by `break`, entered
 * in the middle through the saved continuation.
 */
module CodeLock {
  import opened Common
  import opened Protothread

  const CODE := "1423"

  // ----- the blocking thread -----

  /** A key found right: when its timer was set, and the reading that found the timer still running. */
  datatype Check = First(key: char) | Timed(key: char, start: int, read: int)

  /** The variables of the program; and its history: key presses taken note of, keys compared, the
      comparisons of the current attempt that succeeded, and for each comparison how many key presses
      had been taken note of when it was made. */
  datatype State = State(ticks: nat, key: char, pressed: bool, start: int, interval: int, keys: nat,
                         consumed: nat, compared: string, checks: seq<Check>, noted: seq<nat>)

  datatype Result = Result(status: Status, lc: nat, state: State)

  /** The three places where the thread can be suspended. */
  const FIRST_KEY := 1
  const NEXT_KEY := 2
  const FINAL_WAIT := 3

  function SetTimer(clock: nat -> int, s: State, interval: int): State {
    s.(start := clock(s.ticks), interval := interval, ticks := s.ticks + 1)
  }

  function ReadClock(s: State): State { s.(ticks := s.ticks + 1) }

  function Consume(s: State): State { s.(pressed := false, consumed := s.consumed + 1) }

  predicate Expired(clock: nat -> int, s: State) { clock(s.ticks) - s.start >= s.interval }

  /** Wait for the first key of an attempt. */
  function AwaitFirst(clock: nat -> int, s: State): Result
    decreases s.pressed, 0
  {
    var s := s.(keys := 0, checks := []);
    if s.pressed then Compare(clock, Consume(s), First(s.key)) else Result(Waiting, FIRST_KEY, s)
  }

  /** Compare the latest key with the code. */
  function Compare(clock: nat -> int, s: State, check: Check): Result
    requires s.keys < |CODE|
    decreases s.pressed, 2 * (4 - s.keys) + 1
  {
    var s := s.(compared := s.compared + [s.key], noted := s.noted + [s.consumed]);
    if s.key != CODE[s.keys] then AwaitFirst(clock, s)
    else
      var s := s.(keys := s.keys + 1, checks := s.checks + [check]);
      if s.keys < |CODE| then AwaitNext(clock, SetTimer(clock, s, 1000))
      else AwaitFinal(clock, SetTimer(clock, s, 500))
  }

  /** Wait for a further key or for its timer. */
  function AwaitNext(clock: nat -> int, s: State): Result
    requires s.keys < |CODE|
    decreases s.pressed, 2 * (4 - s.keys) + 2
  {
    if !s.pressed && !Expired(clock, s) then Result(Waiting, NEXT_KEY, ReadClock(s))
    else
      var s := if s.pressed then Consume(s) else ReadClock(s);
      if Expired(clock, s) then AwaitFirst(clock, ReadClock(s))
      else Compare(clock, ReadClock(s), Timed(s.key, s.start, clock(s.ticks)))
  }

  /** Wait for another key or for the last timer, and unlock if it has expired. */
  function AwaitFinal(clock: nat -> int, s: State): Result
    decreases s.pressed, 1
  {
    if !s.pressed && !Expired(clock, s) then Result(Waiting, FINAL_WAIT, ReadClock(s))
    else
      var s := if s.pressed then Consume(s) else ReadClock(s);
      if Expired(clock, s) then Result(Exited, 0, ReadClock(s)) else AwaitFirst(clock, ReadClock(s))
  }

  /** One call of the thread. */
  function Turn(clock: nat -> int, lc: nat, s: State): Result
    requires lc == NEXT_KEY ==> s.keys < |CODE|
  {
    if lc == NEXT_KEY then AwaitNext(clock, s)
    else if lc == FINAL_WAIT then AwaitFinal(clock, s)
    else AwaitFirst(clock, s)
  }

  // ----- the program -----

  class Lock {
    const clock: nat -> int   // the successive results of clock_time()
    var ticks: nat
    var key: char
    var keyPressedFlag: bool
    var timerStart: int
    var timerInterval: int
    var keys: nat
    var lc: nat
    ghost var consumed: nat
    ghost var compared: string
    ghost var checks: seq<Check>
    ghost var noted: seq<nat>

    ghost function Now(): State
      reads this
    {
      State(ticks, key, keyPressedFlag, timerStart, timerInterval, keys, consumed, compared, checks, noted)
    }

    ghost predicate Placed()
      reads this
    {
      && lc <= FINAL_WAIT
      && (lc == FIRST_KEY ==> keys == 0 && checks == [])
      && (lc == NEXT_KEY ==> 0 < keys < |CODE|)
    }

    constructor (clock: nat -> int)
      ensures this.clock == clock && lc == 0 && Placed()
      ensures Now() == State(0, '\0', false, 0, 0, 0, 0, "", [], [])
    {
      this.clock := clock;
      ticks, key, keyPressedFlag := 0, '\0', false;
      timerStart, timerInterval, keys, lc := 0, 0, 0, 0;
      consumed, compared, checks, noted := 0, "", [], [];
    }

    method PressKey(k: char)
      modifies this`key, this`keyPressedFlag
      ensures Now() == Press(old(Now()), [k])
    {
      key := k;
      keyPressedFlag := true;
    }

    method KeyPressed() returns (pressed: bool)
      modifies this`keyPressedFlag, this`consumed
      ensures pressed == old(keyPressedFlag)
      ensures Now() == if pressed then Consume(old(Now())) else old(Now())
    {
      if keyPressedFlag {
        keyPressedFlag := false;
        consumed := consumed + 1;
        return true;
      }
      return false;
    }

    method ClockTime() returns (t: int)
      modifies this`ticks
      ensures t == clock(old(ticks)) && ticks == old(ticks) + 1
    {
      t := clock(ticks);
      ticks := ticks + 1;
    }

    method TimerSet(interval: int)
      modifies this`timerStart, this`timerInterval, this`ticks
      ensures Now() == SetTimer(clock, old(Now()), interval)
    {
      timerInterval := interval;
      timerStart := ClockTime();
    }

    method TimerExpired() returns (expired: bool)
      modifies this`ticks
      ensures Now() == ReadClock(old(Now())) && expired == Expired(clock, old(Now()))
    {
      var t := ClockTime();
      expired := t - timerStart >= timerInterval;
    }

    /** `key_pressed() || timer_expired(&codelock_timer)` */
    method KeyOrTimer() returns (go: bool)
      modifies this`keyPressedFlag, this`consumed, this`ticks
      ensures go == (old(keyPressedFlag) || Expired(clock, old(Now())))
      ensures Now() == if old(keyPressedFlag) then Consume(old(Now())) else ReadClock(old(Now()))
    {
      go := KeyPressed();
      if !go { go := TimerExpired(); }
    }

    /** The wait before a comparison: for the first key, or under a timer for a further one. */
    method WaitForKey(at: nat) returns (suspended: bool, broken: bool, ghost check: Check)
      requires at <= FINAL_WAIT && (at == lc || at == 0)
      requires at != FINAL_WAIT && (at != 0 || keys < |CODE|) && Onward(at, Now()).Some?
      modifies this`ticks, this`keyPressedFlag, this`timerStart, this`timerInterval, this`lc, this`consumed
      ensures keyPressedFlag ==> old(keyPressedFlag)
      ensures old(at == 0 && keys == 0) && !suspended ==> old(keyPressedFlag) && !keyPressedFlag
      ensures var goal := old(Onward(at, Now())).value;
              if suspended then Result(Waiting, lc, Now()) == goal && Placed()
              else if broken then goal == AwaitFirst(clock, Now())
              else goal == Compare(clock, Now(), check)
    {
      hide Compare;
      suspended, broken, check := false, false, First(key);
      if at == FIRST_KEY || (at == 0 && keys == 0) {
        if at == 0 { lc := FIRST_KEY; }
        var pressed := KeyPressed();
        suspended := !pressed;
      } else {
        if at == 0 {
          TimerSet(1000);
          lc := NEXT_KEY;
        }
        var go := KeyOrTimer();
        if !go {
          suspended := true;
          return;
        }
        check := Timed(key, timerStart, clock(ticks));
        broken := TimerExpired();
      }
    }

    method CompareKey(ghost check: Check) returns (right: bool)
      requires keys < |CODE|
      modifies this`keys, this`compared, this`checks, this`noted
      ensures if right then keys == old(keys) + 1 && Onward(0, Now()) == Some(Compare(clock, old(Now()), check))
              else keys == old(keys) && AwaitFirst(clock, Now()) == Compare(clock, old(Now()), check)
    {
      hide AwaitFirst, AwaitNext, AwaitFinal;
      compared, noted := compared + [key], noted + [consumed];
      right := key == CODE[keys];
      if right {
        keys := keys + 1;
        checks := checks + [check];
      }
    }

    /** The wait for the last timer. */
    method WaitForUnlock(at: nat) returns (suspended: bool, unlocked: bool)
      requires (at == FINAL_WAIT == lc) || (at == 0 && keys == |CODE|)
      modifies this`ticks, this`keyPressedFlag, this`timerStart, this`timerInterval, this`lc, this`consumed
      ensures keyPressedFlag ==> old(keyPressedFlag)
      ensures var goal := old(Onward(at, Now())).value;
              if suspended then Result(Waiting, lc, Now()) == goal && lc == FINAL_WAIT
              else if unlocked then Result(Exited, 0, Now()) == goal
              else goal == AwaitFirst(clock, Now())
    {
      hide AwaitFirst;
      if at == 0 {
        TimerSet(500);
        lc := FINAL_WAIT;
      }
      var go := KeyOrTimer();
      suspended := !go;
      unlocked := false;
      if go { unlocked := TimerExpired(); }
    }

    /** The loop over the keys of one attempt, entered at a wait or at its start. */
    method TypeKeys(jump: nat, ghost goal: Result) returns (suspended: bool, broken: bool)
      requires jump < FINAL_WAIT && (jump != 0 ==> lc == jump) && (jump == 0 ==> keys == 0)
      requires Onward(jump, Now()) == Some(goal)
      modifies this`ticks, this`keyPressedFlag, this`timerStart, this`timerInterval, this`keys, this`lc,
               this`consumed, this`compared, this`checks, this`noted
      ensures keyPressedFlag ==> old(keyPressedFlag)
      ensures suspended ==> Placed() && Result(Waiting, lc, Now()) == goal
      ensures !suspended && jump == 0 ==> old(keyPressedFlag) && !keyPressedFlag
      ensures !suspended ==>
                if broken then keys < |CODE| && goal == AwaitFirst(clock, Now())
                else keys == |CODE| && Onward(0, Now()) == Some(goal)
    {
      hide AwaitFirst, AwaitNext, AwaitFinal, Compare;
      ghost var flag := keyPressedFlag;
      var at := jump;
      suspended, broken := false, false;
      while !broken && (at != 0 || keys < |CODE|)
        invariant at < FINAL_WAIT && (at != 0 ==> lc == at)
        invariant if broken then at == 0 && keys < |CODE| && goal == AwaitFirst(clock, Now())
                  else Onward(at, Now()) == Some(goal)
        invariant keyPressedFlag ==> flag
        invariant jump != 0 || (flag && !keyPressedFlag) || (at == 0 && keys == 0 && !broken && keyPressedFlag == flag)
        decreases !broken, |CODE| - keys
      {
        ghost var check;
        suspended, broken, check := WaitForKey(at);
        at := 0;
        if suspended { return; }
        if !broken {
          var right := CompareKey(check);
          broken := !right;
        }
      }
    }

    /** One call of the thread function. `at` is where the switch jumps to, 0 once it has. */
    method CodelockThread() returns (status: Status)
      requires Placed()
      modifies this`ticks, this`keyPressedFlag, this`timerStart, this`timerInterval, this`keys, this`lc,
               this`consumed, this`compared, this`checks, this`noted
      ensures Placed()
      ensures Result(status, lc, Now()) == Turn(clock, old(lc), old(Now()))
    {
      hide AwaitNext, AwaitFinal, Compare;
      ghost var goal := Turn(clock, lc, Now());
      var at: nat := lc;
      if at == 0 { keys, checks := 0, []; }
      hide AwaitFirst;
      while true
        invariant at <= FINAL_WAIT && (at != 0 ==> lc == at)
        invariant Onward(at, Now()) == Some(goal)
        invariant at == 0 ==> keys == 0
        decreases at != 0, keyPressedFlag
      {
        var suspended, broken := false, false;
        if at != FINAL_WAIT {
          suspended, broken := TypeKeys(at, goal);
          at := 0;
          if suspended { return Waiting; }
        }
        if at == FINAL_WAIT || keys == |CODE| {
          var unlocked;
          suspended, unlocked := WaitForUnlock(at);
          at := 0;
          if suspended { return Waiting; }
          if unlocked {
            lc := 0;
            return Exited;
          }
        }
        NewAttempt(clock, Now());
        keys, checks := 0, [];
      }
    }

    /** What the blocking thread does from here, if this is a place of its. */
    ghost function Onward(at: nat, s: State): Option<Result> {
      if at == FIRST_KEY then if s.keys == 0 && s.checks == [] then Some(AwaitFirst(clock, s)) else None
      else if at == NEXT_KEY then if 0 < s.keys < |CODE| then Some(AwaitNext(clock, s)) else None
      else if at == FINAL_WAIT then Some(AwaitFinal(clock, s))
      else if s.keys == 0 then if s.checks == [] then Some(AwaitFirst(clock, s)) else None
      else if s.keys < |CODE| then Some(AwaitNext(clock, SetTimer(clock, s, 1000)))
      else if s.keys == |CODE| then Some(AwaitFinal(clock, SetTimer(clock, s, 500)))
      else None
    }
  }

  /** A comparison, one step of it. */
  lemma CompareStep(clock: nat -> int, s: State, check: Check)
    requires s.keys < |CODE|
    ensures var s1 := s.(compared := s.compared + [s.key], noted := s.noted + [s.consumed]);
            var s2 := s1.(keys := s1.keys + 1, checks := s1.checks + [check]);
            Compare(clock, s, check) ==
            if s.key != CODE[s.keys] then AwaitFirst(clock, s1)
            else if s2.keys < |CODE| then AwaitNext(clock, SetTimer(clock, s2, 1000))
            else AwaitFinal(clock, SetTimer(clock, s2, 500))
  {
    hide AwaitFirst, AwaitNext, AwaitFinal;
  }

  lemma NewAttempt(clock: nat -> int, s: State)
    ensures AwaitFirst(clock, s) == AwaitFirst(clock, s.(keys := 0, checks := []))
  {
  }

  /** Keys pressed one after another: the last one stays. */
  function Press(s: State, ks: string): State {
    if ks == "" then s else s.(key := ks[|ks| - 1], pressed := true)
  }

  // ----- what every run of the lock keeps -----

  /** The attempt so far: right keys in order, all but the first under a timer that still ran. */
  ghost predicate OnTheWay(keys: nat, compared: string, checks: seq<Check>) {
    && |checks| == keys <= |CODE| && keys <= |compared|
    && compared[|compared| - keys..] == CODE[..keys]
    && forall i :: 0 <= i < keys ==>
         checks[i].key == CODE[i] && (if i == 0 then checks[i].First? else InTime(checks[i]))
  }

  predicate InTime(c: Check) { c.Timed? && c.read - c.start < 1000 }

  /** The last four keys compared are the code, and they are the keys of the current attempt. */
  ghost predicate CodeTyped(compared: string, checks: seq<Check>) {
    && |compared| >= |CODE| == |checks| && compared[|compared| - |CODE|..] == CODE
    && forall i :: 0 <= i < |CODE| ==> checks[i].key == CODE[i]
  }

  lemma WholeCode(compared: string, checks: seq<Check>)
    requires OnTheWay(|CODE|, compared, checks)
    ensures CodeTyped(compared, checks)
  {
    assert CODE[..|CODE|] == CODE;
  }

  lemma NothingTyped(compared: string)
    ensures OnTheWay(0, compared, [])
  {
    assert compared[|compared|..] == CODE[..0];
  }

  lemma OneKeyMore(keys: nat, compared: string, checks: seq<Check>, check: Check)
    requires OnTheWay(keys, compared, checks) && keys < |CODE| && check.key == CODE[keys]
    requires if keys == 0 then check.First? else InTime(check)
    ensures OnTheWay(keys + 1, compared + [check.key], checks + [check])
  {
    var more := compared + [check.key];
    assert more[|more| - (keys + 1)..] == compared[|compared| - keys..] + [check.key];
    assert CODE[..keys + 1] == CODE[..keys] + [CODE[keys]];
  }

  /** A suspended thread stands where the program left it. */
  ghost predicate SuspendedAt(lc: nat, s: State) {
    || lc == FIRST_KEY
    || (lc == NEXT_KEY && OnTheWay(s.keys, s.compared, s.checks) && 0 < s.keys < |CODE| && s.interval == 1000)
    || (lc == FINAL_WAIT && OnTheWay(s.keys, s.compared, s.checks) && s.keys == |CODE| && s.interval == 500)
  }

  /** The lock opens only for the whole code, typed in time, after half a second of waiting. */
  ghost predicate Unlocked(clock: nat -> int, s: State) {
    && OnTheWay(s.keys, s.compared, s.checks) && s.keys == |CODE|
    && CodeTyped(s.compared, s.checks)
    && s.ticks > 0 && clock(s.ticks - 1) - s.start >= s.interval == 500
  }

  ghost predicate Safe(clock: nat -> int, r: Result) {
    && r.status in {Waiting, Exited}
    && (r.status == Waiting ==> SuspendedAt(r.lc, r.state) && !r.state.pressed)
    && (r.status == Exited ==> r.lc == 0 && Unlocked(clock, r.state))
  }

  lemma FirstIsSafe(clock: nat -> int, s: State)
    ensures Safe(clock, AwaitFirst(clock, s))
    decreases s.pressed, 0
  {
    hide OnTheWay, Unlocked;
    NothingTyped(s.compared);
    if s.pressed { CompareIsSafe(clock, Consume(s.(keys := 0, checks := [])), First(s.key)); }
  }

  lemma CompareIsSafe(clock: nat -> int, s: State, check: Check)
    requires OnTheWay(s.keys, s.compared, s.checks) && s.keys < |CODE| && check.key == s.key
    requires if s.keys == 0 then check.First? else InTime(check)
    ensures Safe(clock, Compare(clock, s, check))
    decreases s.pressed, 2 * (4 - s.keys) + 1
  {
    hide OnTheWay, Safe, AwaitFirst, AwaitNext, AwaitFinal;
    var s1 := s.(compared := s.compared + [s.key], noted := s.noted + [s.consumed]);
    if s.key != CODE[s.keys] {
      FirstIsSafe(clock, s1);
    } else {
      OneKeyMore(s.keys, s.compared, s.checks, check);
      var s2 := s1.(keys := s1.keys + 1, checks := s1.checks + [check]);
      if s2.keys < |CODE| {
        NextIsSafe(clock, SetTimer(clock, s2, 1000));
      } else {
        FinalIsSafe(clock, SetTimer(clock, s2, 500));
      }
    }
  }

  lemma NextIsSafe(clock: nat -> int, s: State)
    requires OnTheWay(s.keys, s.compared, s.checks) && 0 < s.keys < |CODE| && s.interval == 1000
    ensures Safe(clock, AwaitNext(clock, s))
    decreases s.pressed, 2 * (4 - s.keys) + 2
  {
    if s.pressed || Expired(clock, s) {
      var s' := if s.pressed then Consume(s) else ReadClock(s);
      if Expired(clock, s') {
        FirstIsSafe(clock, ReadClock(s'));
      } else {
        CompareIsSafe(clock, ReadClock(s'), Timed(s'.key, s'.start, clock(s'.ticks)));
      }
    }
  }

  lemma FinalIsSafe(clock: nat -> int, s: State)
    requires OnTheWay(s.keys, s.compared, s.checks) && s.keys == |CODE| && s.interval == 500
    ensures Safe(clock, AwaitFinal(clock, s))
    decreases s.pressed, 1
  {
    hide OnTheWay, CodeTyped, AwaitFirst, Compare;
    WholeCode(s.compared, s.checks);
    if s.pressed || Expired(clock, s) {
      var s' := if s.pressed then Consume(s) else ReadClock(s);
      if !Expired(clock, s') { FirstIsSafe(clock, ReadClock(s')); }
    }
  }

  /** Calls from the start of the thread, with keys pressed before each, up to the one that unlocks. */
  function Session(clock: nat -> int, lc: nat, s: State, presses: seq<string>): Result
    requires lc == NEXT_KEY ==> s.keys < |CODE|
    decreases |presses|
  {
    if presses == [] then Result(Waiting, lc, s)
    else
      var r := Turn(clock, lc, Press(s, presses[0]));
      if r.status == Exited || (r.lc == NEXT_KEY && r.state.keys >= |CODE|) then r
      else Session(clock, r.lc, r.state, presses[1..])
  }

  /** In every run, whatever is typed and whatever the clock says, unlocking means the code was typed right. */
  lemma {:induction false} SessionIsSafe(clock: nat -> int, lc: nat, s: State, presses: seq<string>)
    requires lc == 0 || SuspendedAt(lc, s)
    ensures var r := Session(clock, lc, s, presses);
            r.status == Exited ==> r.lc == 0 && Unlocked(clock, r.state)
    ensures var r := Session(clock, lc, s, presses);
            var t := r.state.compared;
            r.status == Exited ==> |t| >= 4 && t[|t| - 4..] == "1423"
    decreases |presses|
  {
    if presses != [] {
      var s' := Press(s, presses[0]);
      if lc == NEXT_KEY { NextIsSafe(clock, s'); }
      else if lc == FINAL_WAIT { FinalIsSafe(clock, s'); }
      else { FirstIsSafe(clock, s'); }
      var r := Turn(clock, lc, s');
      if r.status == Waiting { SessionIsSafe(clock, r.lc, r.state, presses[1..]); }
    }
  }

  // ----- a clock that never goes back -----

  ghost predicate Monotone(clock: nat -> int) {
    forall i: nat, j: nat :: i <= j ==> clock(i) <= clock(j)
  }

  /** How many key presses had been taken note of at the latest comparison. */
  function LastNoted(noted: seq<nat>): nat { if noted == [] then 0 else noted[|noted| - 1] }

  /** Every comparison came after a key press that no comparison before it had. */
  predicate PressEach(s: State) {
    && |s.noted| == |s.compared| && LastNoted(s.noted) <= s.consumed
    && forall i :: 0 <= i < |s.noted| ==> LastNoted(s.noted[..i]) < s.noted[i]
  }

  lemma OnePressMore(s: State)
    requires PressEach(s) && LastNoted(s.noted) < s.consumed
    ensures PressEach(s.(compared := s.compared + [s.key], noted := s.noted + [s.consumed]))
  {
    var more := s.noted + [s.consumed];
    forall i | 0 <= i < |more| ensures LastNoted(more[..i]) < more[i] {
      assert more[..i] == s.noted[..i];
      assert s.noted[..|s.noted|] == s.noted;
    }
  }

  lemma SamePresses(s: State, s': State)
    requires PressEach(s) && s'.noted == s.noted && |s'.compared| == |s.compared| && s.consumed <= s'.consumed
    ensures PressEach(s')
  {
  }

  lemma FirstSpends(clock: nat -> int, s: State)
    requires Monotone(clock) && PressEach(s)
    ensures PressEach(AwaitFirst(clock, s).state)
    decreases s.pressed, 0
  {
    if s.pressed { CompareSpends(clock, Consume(s.(keys := 0, checks := [])), First(s.key)); }
  }

  lemma CompareSpends(clock: nat -> int, s: State, check: Check)
    requires Monotone(clock) && s.keys < |CODE| && PressEach(s) && LastNoted(s.noted) < s.consumed
    ensures PressEach(Compare(clock, s, check).state)
    decreases s.pressed, 2 * (4 - s.keys) + 1
  {
    hide PressEach, AwaitFirst, AwaitNext, AwaitFinal, Compare;
    CompareStep(clock, s, check);
    var s1 := s.(compared := s.compared + [s.key], noted := s.noted + [s.consumed]);
    OnePressMore(s);
    if s.key != CODE[s.keys] {
      FirstSpends(clock, s1);
    } else {
      var s2 := s1.(keys := s1.keys + 1, checks := s1.checks + [check]);
      if s2.keys < |CODE| {
        SamePresses(s1, SetTimer(clock, s2, 1000));
        NextSpends(clock, SetTimer(clock, s2, 1000));
      } else {
        SamePresses(s1, SetTimer(clock, s2, 500));
        FinalSpends(clock, SetTimer(clock, s2, 500));
      }
    }
  }

  lemma NextSpends(clock: nat -> int, s: State)
    requires Monotone(clock) && s.keys < |CODE| && PressEach(s)
    ensures PressEach(AwaitNext(clock, s).state)
    decreases s.pressed, 2 * (4 - s.keys) + 2
  {
    if s.pressed || Expired(clock, s) {
      var s' := if s.pressed then Consume(s) else ReadClock(s);
      assert clock(s.ticks) <= clock(s'.ticks);
      if Expired(clock, s') {
        FirstSpends(clock, ReadClock(s'));
      } else {
        CompareSpends(clock, ReadClock(s'), Timed(s'.key, s'.start, clock(s'.ticks)));
      }
    }
  }

  lemma FinalSpends(clock: nat -> int, s: State)
    requires Monotone(clock) && PressEach(s)
    ensures PressEach(AwaitFinal(clock, s).state)
    decreases s.pressed, 1
  {
    if s.pressed || Expired(clock, s) {
      var s' := if s.pressed then Consume(s) else ReadClock(s);
      if !Expired(clock, s') { FirstSpends(clock, ReadClock(s')); }
    }
  }

  /** In every run, each key is compared only after a press of its own has been taken note of. */
  lemma {:induction false} SessionSpendsKeys(clock: nat -> int, lc: nat, s: State, presses: seq<string>)
    requires Monotone(clock) && (lc == NEXT_KEY ==> s.keys < |CODE|) && PressEach(s)
    ensures PressEach(Session(clock, lc, s, presses).state)
    decreases |presses|
  {
    hide PressEach, AwaitFirst, AwaitNext, AwaitFinal;
    if presses != [] {
      var s' := Press(s, presses[0]);
      PressKeeps(s, presses[0]);
      if lc == NEXT_KEY { NextSpends(clock, s'); }
      else if lc == FINAL_WAIT { FinalSpends(clock, s'); }
      else { FirstSpends(clock, s'); }
      var r := Turn(clock, lc, s');
      if !(r.status == Exited || (r.lc == NEXT_KEY && r.state.keys >= |CODE|)) {
        SessionSpendsKeys(clock, r.lc, r.state, presses[1..]);
      }
    }
  }

  lemma PressKeeps(s: State, ks: string)
    requires PressEach(s)
    ensures PressEach(Press(s, ks))
  {
  }

  /** Comparisons are only ever added. */
  lemma FirstGrows(clock: nat -> int, s: State)
    ensures s.compared <= AwaitFirst(clock, s).state.compared
    decreases s.pressed, 0
  {
    if s.pressed { CompareGrows(clock, Consume(s.(keys := 0, checks := [])), First(s.key)); }
  }

  lemma CompareGrows(clock: nat -> int, s: State, check: Check)
    requires s.keys < |CODE|
    ensures s.compared + [s.key] <= Compare(clock, s, check).state.compared
    decreases s.pressed, 2 * (4 - s.keys) + 1
  {
    hide AwaitFirst, AwaitNext, AwaitFinal, Compare;
    CompareStep(clock, s, check);
    var s1 := s.(compared := s.compared + [s.key], noted := s.noted + [s.consumed]);
    if s.key != CODE[s.keys] {
      FirstGrows(clock, s1);
    } else {
      var s2 := s1.(keys := s1.keys + 1, checks := s1.checks + [check]);
      if s2.keys < |CODE| {
        NextGrows(clock, SetTimer(clock, s2, 1000));
      } else {
        FinalGrows(clock, SetTimer(clock, s2, 500));
      }
    }
  }

  lemma NextGrows(clock: nat -> int, s: State)
    requires s.keys < |CODE|
    ensures s.compared <= AwaitNext(clock, s).state.compared
    decreases s.pressed, 2 * (4 - s.keys) + 2
  {
    if s.pressed || Expired(clock, s) {
      var s' := if s.pressed then Consume(s) else ReadClock(s);
      if Expired(clock, s') {
        FirstGrows(clock, ReadClock(s'));
      } else {
        CompareGrows(clock, ReadClock(s'), Timed(s'.key, s'.start, clock(s'.ticks)));
      }
    }
  }

  lemma FinalGrows(clock: nat -> int, s: State)
    ensures s.compared <= AwaitFinal(clock, s).state.compared
    decreases s.pressed, 1
  {
    if s.pressed || Expired(clock, s) {
      var s' := if s.pressed then Consume(s) else ReadClock(s);
      if !Expired(clock, s') { FirstGrows(clock, ReadClock(s')); }
    }
  }

  /**
   * A wait without a key press compares a key if and only if it is the wait for a further key, and its
   * timer has expired at the first reading of the clock and not at the second.
   */
  lemma ComparesUnpressedIff(clock: nat -> int, lc: nat, s: State)
    requires !s.pressed && (lc == NEXT_KEY ==> s.keys < |CODE|)
    ensures Turn(clock, lc, s).state.compared != s.compared
            <==> lc == NEXT_KEY && Expired(clock, s) && !Expired(clock, ReadClock(s))
  {
    hide Compare;
    var s' := ReadClock(s);
    assert AwaitFirst(clock, ReadClock(s')).state.compared == s.compared;
    if lc == NEXT_KEY && Expired(clock, s) && !Expired(clock, s') {
      var r := Compare(clock, ReadClock(s'), Timed(s'.key, s'.start, clock(s'.ticks)));
      CompareGrows(clock, ReadClock(s'), Timed(s'.key, s'.start, clock(s'.ticks)));
      assert Turn(clock, lc, s) == r && |r.state.compared| > |s.compared|;
    }
  }

  /** The program as it starts. */
  function Initial(): State { State(0, '\0', false, 0, 0, 0, 0, "", [], []) }

  /**
   * Under a clock that goes back once, a run from the start compares a key that nobody pressed again:
   * the wait for the second key ends because its timer seems to have expired, and then it has not.
   */
  lemma ComparisonWithoutPress()
    ensures var clock := (i: nat) => if i == 2 then 1000 else 0;
            !Monotone(clock) && !PressEach(Session(clock, 0, Initial(), ["1", ""]).state)
  {
    var clock := (i: nat) => if i == 2 then 1000 else 0;
    assert clock(2) > clock(3);
    hide Session, Turn, PressEach;
    FirstTurn(clock);
    SecondTurn(clock);
    var presses := ["1", ""];
    assert presses[1..] == [""] && [""][1..] == [];
    SessionStarts(clock, 0, Initial(), presses);
    SessionStarts(clock, NEXT_KEY, Accepted(), [""]);
    SessionOver(clock, FIRST_KEY, ComparedAgain());
    NotPressed();
  }

  function Accepted(): State { State(2, '1', false, 0, 1000, 1, 1, "1", [First('1')], [1]) }

  function ComparedAgain(): State { State(4, '1', false, 0, 1000, 0, 1, "11", [], [1, 1]) }

  lemma FirstTurn(clock: nat -> int)
    requires clock(0) == clock(1) == 0
    ensures Turn(clock, 0, Press(Initial(), "1")) == Result(Waiting, NEXT_KEY, Accepted())
  {
    KeyAccepted(clock, Consume(Press(Initial(), "1")), First('1'));
  }

  lemma SecondTurn(clock: nat -> int)
    requires clock(2) == 1000 && clock(3) == 0
    ensures Turn(clock, NEXT_KEY, Press(Accepted(), "")) == Result(Waiting, FIRST_KEY, ComparedAgain())
  {
    var s := ReadClock(ReadClock(Accepted()));
    assert AwaitNext(clock, Accepted()) == Compare(clock, s, Timed('1', 0, 0));
    CompareStep(clock, s, Timed('1', 0, 0));
  }

  lemma NotPressed()
    ensures !PressEach(ComparedAgain())
  {
    var s := ComparedAgain();
    assert s.noted[..1] == [1] && LastNoted(s.noted[..1]) == s.noted[1];
  }

  lemma SessionOver(clock: nat -> int, lc: nat, s: State)
    requires lc != NEXT_KEY
    ensures Session(clock, lc, s, []) == Result(Waiting, lc, s)
  {
  }

  /** Whether the last wait unlocks is the timer's decision alone: a key pressed meanwhile and noticed
      only after half a second does not lock it again, although the comment on that wait says so. */
  lemma LateKeyIsIgnored(clock: nat -> int, s: State)
    requires Monotone(clock)
    ensures AwaitFinal(clock, s).status == Exited <==> clock(s.ticks) - s.start >= s.interval
  {
    assert clock(s.ticks) <= clock(s.ticks + 1);
  }

  function Limit(keys: nat): int { if keys < |CODE| then 1000 else 500 }

  /**
   * From the clock reading `t` on, with `k` keys accepted and the timer set at `start`, the right keys
   * arrive in time: any number of calls find no key and the timer running, then one finds the next key
   * and the timer running; and after the last key, calls find no key until half a second is over.
   */
  ghost predicate Timely(clock: nat -> int, t: nat, start: int, k: nat, presses: seq<string>)
    requires k <= |CODE|
    decreases |presses|
  {
    presses != [] &&
    var typed, rest := presses[0], presses[1..];
    if k == 0 then
      if typed == "" then Timely(clock, t, start, 0, rest)
      else
        && typed[|typed| - 1] == CODE[0] && clock(t + 1) - clock(t) < 1000
        && Timely(clock, t + 2, clock(t), 1, rest)
    else if k < |CODE| then
      && clock(t) - start < 1000
      && if typed == "" then Timely(clock, t + 1, start, k, rest)
         else
           && typed[|typed| - 1] == CODE[k] && clock(t + 2) - clock(t + 1) < Limit(k + 1)
           && Timely(clock, t + 3, clock(t + 1), k + 1, rest)
    else
      clock(t) - start >= 500 || (typed == "" && Timely(clock, t + 1, start, k, rest))
  }

  /** Typing the code in time, however often the thread is called in between, opens the lock. */
  lemma RightCodeOpens(clock: nat -> int, s: State, presses: seq<string>)
    requires Monotone(clock) && !s.pressed && Timely(clock, s.ticks, s.start, 0, presses)
    ensures Session(clock, FIRST_KEY, s, presses).status == Exited
  {
    RestOfCodeOpens(clock, s, presses, 0);
  }

  function WaitAfter(k: nat): nat { if k == 0 then FIRST_KEY else if k < |CODE| then NEXT_KEY else FINAL_WAIT }

  lemma {:induction false} RestOfCodeOpens(clock: nat -> int, s: State, presses: seq<string>, k: nat)
    requires Monotone(clock) && !s.pressed && k <= |CODE| && Timely(clock, s.ticks, s.start, k, presses)
    requires k > 0 ==> s.keys == k && s.interval == Limit(k)
    ensures Session(clock, WaitAfter(k), s, presses).status == Exited
    decreases |presses|
  {
    hide Turn, Session, Timely, Limit;
    assert presses != [] by { TimelyIdle(clock, s.ticks, s.start, k, presses); }
    SessionStarts(clock, WaitAfter(k), s, presses);
    var typed := presses[0];
    if k == |CODE| && clock(s.ticks) - s.start >= 500 {
      WaitOut(clock, s, typed);
    } else if typed == "" {
      TimelyIdle(clock, s.ticks, s.start, k, presses);
      IdleCall(clock, s, k);
      RestOfCodeOpens(clock, Turn(clock, WaitAfter(k), Press(s, "")).state, presses[1..], k);
    } else {
      TimelyKey(clock, s.ticks, s.start, k, presses);
      TypeKey(clock, s, typed, k);
      RestOfCodeOpens(clock, Turn(clock, WaitAfter(k), Press(s, typed)).state, presses[1..], k + 1);
    }
  }

  lemma SessionStarts(clock: nat -> int, lc: nat, s: State, presses: seq<string>)
    requires presses != [] && (lc == NEXT_KEY ==> s.keys < |CODE|)
    ensures var r := Turn(clock, lc, Press(s, presses[0]));
            Session(clock, lc, s, presses) ==
            if r.status == Exited || (r.lc == NEXT_KEY && r.state.keys >= |CODE|) then r
            else Session(clock, r.lc, r.state, presses[1..])
  {
    hide Turn;
  }

  /** A call that finds the right key under a running timer goes on to the next wait. */
  lemma TypeKey(clock: nat -> int, s: State, typed: string, k: nat)
    requires k < |CODE| && typed != "" && typed[|typed| - 1] == CODE[k]
    requires k > 0 ==> s.keys == k && s.interval == Limit(k) && clock(s.ticks) - s.start < 1000 == Limit(k)
    requires var n := if k == 0 then s.ticks else s.ticks + 1; clock(n + 1) - clock(n) < Limit(k + 1)
    ensures var r, n := Turn(clock, WaitAfter(k), Press(s, typed)), if k == 0 then s.ticks else s.ticks + 1;
            && r.status == Waiting && r.lc == WaitAfter(k + 1) && r.state.keys == k + 1 && !r.state.pressed
            && r.state.ticks == n + 2 && r.state.start == clock(n) && r.state.interval == Limit(k + 1)
  {
    hide Turn;
    if k == 0 { TypeFirst(clock, s, typed); } else { TypeNext(clock, s, typed); }
  }

  lemma TimelyIdle(clock: nat -> int, t: nat, start: int, k: nat, presses: seq<string>)
    requires k <= |CODE| && Timely(clock, t, start, k, presses)
    ensures presses != []
    ensures presses[0] == "" && !(k == |CODE| && clock(t) - start >= 500) ==>
              && (k > 0 ==> clock(t) - start < Limit(k))
              && Timely(clock, if k == 0 then t else t + 1, start, k, presses[1..])
  {
  }

  lemma TimelyKey(clock: nat -> int, t: nat, start: int, k: nat, presses: seq<string>)
    requires k <= |CODE| && Timely(clock, t, start, k, presses) && presses != [] && presses[0] != ""
    requires !(k == |CODE| && clock(t) - start >= 500)
    ensures var typed, n := presses[0], if k == 0 then t else t + 1;
            && k < |CODE| && typed[|typed| - 1] == CODE[k] && (k > 0 ==> clock(t) - start < 1000 == Limit(k))
            && clock(n + 1) - clock(n) < Limit(k + 1) && Timely(clock, n + 2, clock(n), k + 1, presses[1..])
  {
  }

  /** A call that finds no key and the timer running reads the clock and stays where it is. */
  lemma IdleCall(clock: nat -> int, s: State, k: nat)
    requires !s.pressed && k <= |CODE|
    requires k > 0 ==> s.keys == k && s.interval == Limit(k) && clock(s.ticks) - s.start < Limit(k)
    ensures Turn(clock, WaitAfter(k), Press(s, ""))
         == Result(Waiting, WaitAfter(k), if k == 0 then s.(keys := 0, checks := []) else ReadClock(s))
  {
  }

  lemma TypeFirst(clock: nat -> int, s: State, typed: string)
    requires typed != "" && typed[|typed| - 1] == CODE[0] && clock(s.ticks + 1) - clock(s.ticks) < Limit(1)
    ensures var r := Turn(clock, FIRST_KEY, Press(s, typed));
            && r.status == Waiting && r.lc == NEXT_KEY && r.state.keys == 1 && !r.state.pressed
            && r.state.ticks == s.ticks + 2 && r.state.start == clock(s.ticks) && r.state.interval == Limit(1)
  {
    KeyAccepted(clock, Consume(Press(s, typed).(keys := 0, checks := [])), First(CODE[0]));
  }

  lemma TypeNext(clock: nat -> int, s: State, typed: string)
    requires 0 < s.keys < |CODE| && typed != "" && typed[|typed| - 1] == CODE[s.keys]
    requires s.interval == Limit(s.keys) && clock(s.ticks) - s.start < 1000
    requires clock(s.ticks + 2) - clock(s.ticks + 1) < Limit(s.keys + 1)
    ensures var r := Turn(clock, NEXT_KEY, Press(s, typed));
            && r.status == Waiting && r.lc == (if s.keys + 1 < |CODE| then NEXT_KEY else FINAL_WAIT)
            && r.state.keys == s.keys + 1 && !r.state.pressed
            && r.state.ticks == s.ticks + 3 && r.state.start == clock(s.ticks + 1)
            && r.state.interval == Limit(s.keys + 1)
  {
    var p := Consume(Press(s, typed));
    KeyAccepted(clock, ReadClock(p), Timed(p.key, s.start, clock(s.ticks)));
  }

  lemma WaitOut(clock: nat -> int, s: State, typed: string)
    requires Monotone(clock) && s.interval == Limit(|CODE|) && clock(s.ticks) - s.start >= 500
    ensures Turn(clock, FINAL_WAIT, Press(s, typed)).status == Exited
  {
    LateKeyIsIgnored(clock, Press(s, typed));
  }

  /** A right key takes the thread to its next wait, where it is suspended if the new timer still runs. */
  lemma KeyAccepted(clock: nat -> int, s: State, check: Check)
    requires s.keys < |CODE| && s.key == CODE[s.keys] && !s.pressed
    requires clock(s.ticks + 1) - clock(s.ticks) < Limit(s.keys + 1)
    ensures var limit := Limit(s.keys + 1);
            Compare(clock, s, check)
            == Result(Waiting, if s.keys + 1 < |CODE| then NEXT_KEY else FINAL_WAIT,
                      State(s.ticks + 2, s.key, false, clock(s.ticks), limit, s.keys + 1, s.consumed,
                            s.compared + [s.key], s.checks + [check], s.noted + [s.consumed]))
  {
    hide AwaitFirst, Compare;
    CompareStep(clock, s, check);
  }

  // ----- what a key does -----

  /** The place where a call ends. */
  predicate Ends(r: Result, status: Status, lc: nat, keys: nat) {
    r.status == status && r.lc == lc && (status == Waiting ==> r.state.keys == keys && !r.state.pressed)
  }

  /**
   * A call that finds a key pressed while it waits for the first one, or for a further one under a timer. A key
   * that comes too late is not compared; it and a wrong one start a new attempt. A right one sets a timer, and leads
   * to the next wait, or on from there if that timer has run out already.
   */
  lemma KeyDecides(clock: nat -> int, lc: nat, s: State)
    requires Monotone(clock) && s.pressed
    requires (lc == 1 && s.keys == 0) || (lc == 2 && 0 < s.keys < 4)
    ensures var r, t := Turn(clock, lc, s), if lc == 1 then s.ticks else s.ticks + 1;
            var ran := clock(t + 1) - clock(t);
            if lc == 2 && clock(s.ticks) - s.start >= s.interval then
              Ends(r, Waiting, 1, 0) && r.state.compared == s.compared
            else if s.key != "1423"[s.keys] then
              Ends(r, Waiting, 1, 0) && r.state.compared == s.compared + [s.key]
            else
              && r.state.compared == s.compared + [s.key] && r.state.start == clock(t)
              && (s.keys < 3 ==>
                    if ran < 1000 then Ends(r, Waiting, 2, s.keys + 1) && r.state.interval == 1000
                    else Ends(r, Waiting, 1, 0))
              && (s.keys == 3 ==>
                    if ran < 500 then Ends(r, Waiting, 3, 4) && r.state.interval == 500 else Ends(r, Exited, 0, 0))
  {
    hide AwaitFirst, AwaitNext, AwaitFinal, Compare;
    var s1 := Consume(s);
    if lc == 1 {
      PressedFirst(clock, s);
      ComparedKey(clock, s1.(keys := 0, checks := []), First(s.key));
    } else {
      PressedNext(clock, s);
      var check := Timed(s.key, s.start, clock(s.ticks));
      if clock(s.ticks) - s.start >= s.interval { IdleFirst(clock, ReadClock(s1)); }
      else { ComparedKey(clock, ReadClock(s1), check); }
    }
  }

  lemma PressedFirst(clock: nat -> int, s: State)
    requires s.pressed
    ensures AwaitFirst(clock, s) == Compare(clock, Consume(s).(keys := 0, checks := []), First(s.key))
  {
    hide Compare;
  }

  lemma PressedNext(clock: nat -> int, s: State)
    requires s.pressed && s.keys < |CODE|
    ensures AwaitNext(clock, s) ==
            if clock(s.ticks) - s.start >= s.interval then AwaitFirst(clock, ReadClock(Consume(s)))
            else Compare(clock, ReadClock(Consume(s)), Timed(s.key, s.start, clock(s.ticks)))
  {
    hide Compare, AwaitFirst;
  }

  lemma IdleFirst(clock: nat -> int, s: State)
    requires !s.pressed
    ensures AwaitFirst(clock, s) == Result(Waiting, 1, s.(keys := 0, checks := []))
  {
  }

  lemma IdleNext(clock: nat -> int, s: State)
    requires Monotone(clock) && !s.pressed && s.keys < |CODE|
    ensures var ran := clock(s.ticks) - s.start;
            AwaitNext(clock, s) ==
            if ran < s.interval then Result(Waiting, 2, ReadClock(s))
            else AwaitFirst(clock, ReadClock(ReadClock(s)))
  {
    hide Compare, AwaitFirst;
    assert clock(s.ticks) <= clock(s.ticks + 1);
  }

  lemma IdleFinal(clock: nat -> int, s: State)
    requires Monotone(clock) && !s.pressed
    ensures var ran := clock(s.ticks) - s.start;
            AwaitFinal(clock, s) ==
            if ran < s.interval then Result(Waiting, 3, ReadClock(s))
            else Result(Exited, 0, ReadClock(ReadClock(s)))
  {
    hide AwaitFirst;
    assert clock(s.ticks) <= clock(s.ticks + 1);
  }

  /** A comparison of a key that has been taken note of. */
  lemma ComparedKey(clock: nat -> int, s: State, check: Check)
    requires Monotone(clock) && !s.pressed && s.keys < |CODE|
    ensures var r, ran := Compare(clock, s, check), clock(s.ticks + 1) - clock(s.ticks);
            && r.state.compared == s.compared + [s.key]
            && if s.key != "1423"[s.keys] then Ends(r, Waiting, 1, 0)
               else
                 && r.state.start == clock(s.ticks)
                 && (s.keys < 3 ==>
                       if ran < 1000 then Ends(r, Waiting, 2, s.keys + 1) && r.state.interval == 1000
                       else Ends(r, Waiting, 1, 0))
                 && (s.keys == 3 ==>
                       if ran < 500 then Ends(r, Waiting, 3, 4) && r.state.interval == 500 else Ends(r, Exited, 0, 0))
  {
    hide AwaitFirst, AwaitNext, AwaitFinal, Compare;
    CompareStep(clock, s, check);
    var s1 := s.(compared := s.compared + [s.key], noted := s.noted + [s.consumed]);
    if s.key != CODE[s.keys] {
      IdleFirst(clock, s1);
    } else {
      var s2 := s1.(keys := s1.keys + 1, checks := s1.checks + [check]);
      if s2.keys < |CODE| {
        var s3 := SetTimer(clock, s2, 1000);
        IdleNext(clock, s3);
        IdleFirst(clock, ReadClock(ReadClock(s3)));
      } else {
        IdleFinal(clock, SetTimer(clock, s2, 500));
      }
    }
  }

  /** A key in time during the last wait locks the door again; without a key the timer alone decides. */
  lemma LastWait(clock: nat -> int, s: State)
    requires Monotone(clock)
    ensures var r := Turn(clock, 3, s);
            if clock(s.ticks) - s.start >= s.interval then Ends(r, Exited, 0, 0)
            else if s.pressed then Ends(r, Waiting, 1, 0)
            else r == Result(Waiting, 3, s.(ticks := s.ticks + 1))
  {
    hide AwaitFirst, AwaitFinal;
    if s.pressed {
      PressedFinal(clock, s);
      IdleFirst(clock, ReadClock(Consume(s)));
    } else {
      IdleFinal(clock, s);
    }
  }

  lemma PressedFinal(clock: nat -> int, s: State)
    requires s.pressed
    ensures AwaitFinal(clock, s) ==
            if clock(s.ticks) - s.start >= s.interval then Result(Exited, 0, ReadClock(Consume(s)))
            else AwaitFirst(clock, ReadClock(Consume(s)))
  {
    hide AwaitFirst;
  }

  /** Without a key the first wait goes on, and a further one until its timer has run out. */
  lemma NoKeyDecides(clock: nat -> int, lc: nat, s: State)
    requires Monotone(clock) && !s.pressed && (lc == 1 || (lc == 2 && s.keys < 4))
    ensures var r := Turn(clock, lc, s);
            && r.state.compared == s.compared
            && if lc == 2 && clock(s.ticks) - s.start < s.interval then Ends(r, Waiting, 2, s.keys)
               else Ends(r, Waiting, 1, 0)
  {
    hide AwaitFirst, AwaitNext;
    if lc == 2 {
      IdleNext(clock, s);
      IdleFirst(clock, ReadClock(ReadClock(s)));
    } else {
      IdleFirst(clock, s);
    }
  }
}
