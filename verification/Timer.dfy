/**
 How long sleep lasts. The timer takes 10 from a task's uint32_t timeout at each
 tick and wakes the task when the result is zero; the test `<= 0` on an unsigned
 field is no more than that, so a timeout that is not a multiple of 10 runs
 through zero and wraps.
 */
module Timer {
  import opened Machine
  import opened Tasks

  /** The task after `n` ticks that are all that happens to it. */
  function Ticks(t: Task, n: nat): Task {
    if n == 0 then t else TickTask(Ticks(t, n - 1))
  }

  /** The countdown from `T` after `n` ticks, had it not stopped at zero. */
  function Residue(T: u32, n: nat): u32 { (T - 10 * n) % 0x1_0000_0000 }

  /** The tick at which an even timeout reaches zero: 1288490189 is the inverse of 5 modulo 2^31. */
  function Turns(T: u32): nat { T / 2 * 1288490189 % 0x8000_0000 }

  lemma ResidueStep(T: u32, n: nat)
    ensures Residue(T, n + 1) == Sub32(Residue(T, n), 10)
  {
  }

  lemma {:induction false} Counting(t: Task, n: nat)
    requires t.timeout > 0 && forall m: nat :: 0 < m <= n ==> Residue(t.timeout, m) != 0
    ensures Ticks(t, n) == t.(timeout := Residue(t.timeout, n))
    decreases n
  {
    if n > 0 {
      Counting(t, n - 1);
      ResidueStep(t.timeout, n - 1);
    }
  }

  /** An even timeout reaches zero at tick Turns(T). */
  lemma TurnsIsZero(T: u32)
    requires T > 0 && T % 2 == 0
    ensures 0 < Turns(T) < 0x8000_0000 && Residue(T, Turns(T)) == 0
  {
    var m := T / 2;
    var q := m * 1288490189 / 0x8000_0000;
    var k := Turns(T);
    assert k == m * 1288490189 - 0x8000_0000 * q;
    assert T - 10 * k == 0x1_0000_0000 * (5 * q - 3 * m);
    Multiple(5 * q - 3 * m);
  }

  lemma Multiple(k: int)
    ensures 0x1_0000_0000 * k % 0x1_0000_0000 == 0
  {
  }

  /** Ticks at which the countdown is zero are a multiple of 2^31 apart. */
  lemma ZerosApart(T: u32, a: nat, b: nat) returns (f: int)
    requires Residue(T, a) == 0 && Residue(T, b) == 0
    ensures b - a == 0x8000_0000 * f
  {
    var x, y := (T - 10 * a) / 0x1_0000_0000, (T - 10 * b) / 0x1_0000_0000;
    var d, c := b - a, x - y;
    assert 5 * d == 0x8000_0000 * c;
    var e := d - 429496729 * c;
    assert 5 * e == 3 * c;
    f := 2 * e - c;
    assert c == 5 * f;
  }

  /** An odd timeout is never zero. */
  lemma OddNeverZero(T: u32, n: nat)
    requires T % 2 == 1
    ensures Residue(T, n) % 2 == 1
  {
    var q := (T - 10 * n) / 0x1_0000_0000;
    assert Residue(T, n) == T - 2 * (5 * n + 0x8000_0000 * q);
  }

  lemma NoZeroBefore(T: u32, m: nat)
    requires T > 0 && T % 2 == 0 && 0 < m < Turns(T)
    ensures Residue(T, m) != 0
  {
    TurnsIsZero(T);
    hide Residue, Turns;
    if Residue(T, m) == 0 {
      var f := ZerosApart(T, m, Turns(T));
    }
  }

  /** Not before tick Turns(T) does an even timeout wake the task, and then it does. */
  lemma SleepWakesAtTurns(t: Task, n: nat)
    requires t.timeout > 0 && t.timeout % 2 == 0 && t.status == Blocked
    ensures n < Turns(t.timeout) ==> Ticks(t, n).status == Blocked
    ensures Ticks(t, Turns(t.timeout)).status == Ready && Ticks(t, Turns(t.timeout)).timeout == 0
  {
    hide Residue, Turns, Ticks, TickTask;
    var k := Turns(t.timeout);
    TurnsIsZero(t.timeout);
    if n < k {
      StillCounting(t, n);
    }
    StillCounting(t, k - 1);
    LastTick(t, k - 1);
  }

  lemma StillCounting(t: Task, n: nat)
    requires t.timeout > 0 && t.timeout % 2 == 0 && n < Turns(t.timeout)
    ensures Ticks(t, n) == t.(timeout := Residue(t.timeout, n)) && Residue(t.timeout, n) > 0
  {
    hide Turns, Ticks, TickTask, Residue;
    forall m: nat | 0 < m <= n ensures Residue(t.timeout, m) != 0 {
      NoZeroBefore(t.timeout, m);
    }
    Counting(t, n);
    FirstResidue(t.timeout);
  }

  lemma FirstResidue(T: u32)
    ensures Residue(T, 0) == T
  {
  }

  /** The tick that brings the countdown to zero wakes the task. */
  lemma LastTick(t: Task, n: nat)
    requires Ticks(t, n) == t.(timeout := Residue(t.timeout, n)) && Residue(t.timeout, n) > 0 && Residue(t.timeout, n + 1) == 0
    ensures Ticks(t, n + 1).status == Ready && Ticks(t, n + 1).timeout == 0
  {
    ResidueStep(t.timeout, n);
    hide Residue;
  }

  /** A timeout of zero is no timeout: no tick touches the task. */
  lemma {:induction false} NoTimeout(t: Task, n: nat)
    requires t.timeout == 0
    ensures Ticks(t, n) == t
    decreases n
  {
    if n > 0 {
      NoTimeout(t, n - 1);
    }
  }

  /** Some tick ever wakes a sleeping task exactly when its timeout is even and not zero. */
  lemma SleepEndsIff(t: Task)
    requires t.status == Blocked
    ensures (exists n: nat :: Ticks(t, n).status == Ready) <==> t.timeout > 0 && t.timeout % 2 == 0
  {
    hide Ticks, TickTask, Turns, Residue;
    if t.timeout == 0 {
      forall n: nat ensures Ticks(t, n).status == Blocked {
        NoTimeout(t, n);
      }
    } else if t.timeout % 2 == 0 {
      SleepWakesAtTurns(t, 0);
    } else {
      forall n: nat ensures Ticks(t, n).status == Blocked {
        forall m: nat ensures Residue(t.timeout, m) != 0 {
          OddNeverZero(t.timeout, m);
        }
        Counting(t, n);
      }
    }
  }

  /** A sleep of a multiple of 10 ms ends at exactly its tick. */
  lemma SleepIsExact(T: u32)
    requires T > 0 && T % 10 == 0
    ensures T % 2 == 0 && Turns(T) == T / 10
  {
    var a, b := Turns(T), T / 10;
    assert T == 2 * (5 * b);
    TurnsIsZero(T);
    assert Residue(T, b) == 0;
    hide Turns, Residue;
    var f := ZerosApart(T, a, b);
  }

  /** Two milliseconds last 1288490189 ticks, some 149 days. */
  lemma SleepTwo()
    ensures Turns(2) == 1288490189
  {
  }

  /** In the system, a run of ticks does to each task what Ticks does. */
  lemma {:induction false} TicksInSystem(s: Sys, n: nat, s': Sys, k: nat)
    requires Inv(s) && Runs(s, seq(n, _ => Tick), s') && k < |s.tasks|
    ensures |s'.tasks| == |s.tasks| && s'.tasks[k] == Ticks(s.tasks[k], n)
    decreases n
  {
    var es := seq(n, _ => Tick);
    if n > 0 {
      var t := Step(s, Tick);
      assert es[1..] == seq(n - 1, _ => Tick);
      StepKeeps(s, Tick);
      OneTick(s, k);
      hide Inv, Step, TickTask;
      TicksInSystem(t, n - 1, s', k);
      TicksShift(s.tasks[k], n - 1);
    }
  }

  lemma OneTick(s: Sys, k: nat)
    requires s.running < |s.tasks| && InRange(s) && k < |s.tasks|
    ensures |Step(s, Tick).tasks| == |s.tasks| && Step(s, Tick).tasks[k] == TickTask(s.tasks[k])
  {
  }

  lemma {:induction false} TicksShift(t: Task, n: nat)
    ensures Ticks(TickTask(t), n) == Ticks(t, n + 1)
  {
    if n > 0 {
      TicksShift(t, n - 1);
    }
  }

  /**
   Sleeping for T ms in the whole system, with nothing but ticks after it: for an even T the task is READY after
   Turns(T) ticks, which is T / 10 for a multiple of 10, and not before; for an odd T, and for zero, it never is.
   */
  lemma SleepInSystem(s: Sys, T: u32, n: nat, s': Sys)
    requires Inv(s) && s.running != 0 && Runs(Step(s, Sleep(T)), seq(n, _ => Tick), s')
    ensures |s'.tasks| == |s.tasks|
    ensures T > 0 && T % 2 == 0 && n <= Turns(T) ==> (IsReady(s'.tasks[s.running]) <==> n == Turns(T))
    ensures T == 0 || T % 2 == 1 ==> !IsReady(s'.tasks[s.running])
  {
    var t := Step(s, Sleep(T));
    StepKeeps(s, Sleep(T));
    assert t.tasks[s.running].timeout == T && t.tasks[s.running].status == Blocked && |t.tasks| == |s.tasks|;
    hide Inv, Step, Turns, Ticks;
    TicksInSystem(t, n, s', s.running);
    if T > 0 && T % 2 == 0 {
      SleepWakesAtTurns(t.tasks[s.running], n);
    } else {
      SleepEndsIff(t.tasks[s.running]);
    }
  }

  /** sleep_on without a timeout is not ended by ticks: the caller waits for a wake_up or a message, however long. */
  lemma SleepOnUntimed(s: Sys, q: nat, n: nat, s': Sys)
    requires Inv(s) && Enabled(s, SleepOn(q)) && Runs(Step(s, SleepOn(q)), seq(n, _ => Tick), s')
    ensures |s'.tasks| == |s.tasks| && !IsReady(s'.tasks[s.running])
  {
    var t := Step(s, SleepOn(q));
    StepKeeps(s, SleepOn(q));
    SleepOnLeaves(s, q);
    InvBasics(s);
    StepTimeout(s, SleepOn(q), s.running);
    hide Inv, Step, Ticks;
    TicksInSystem(t, n, s', s.running);
    NoTimeout(t.tasks[s.running], n);
  }
}
