/** The bounded-retry spin lock under every interleaving of any number of CPUs: shared memory is the lock
    word and the counter, each access a separate step. */
module SpinLock {
  import opened Words

  const LOCK_RETRY_BOUND: nat := 8 * 1024 * 1024
  const MAX_NR_CPUS: nat := 1024
  const EOPNOTSUPP: int := 95
  const ETIMEDOUT: int := 110

  /** Where a CPU is in the program. */
  datatype Pc =
    | Idle(ret: int)          // returned this, or not started yet
    | Trying(tries: nat)      // inside the retry loop
    | Check                   // holds the lock, about to compare counter and limit
    | Load                    // about to load counter for the increment
    | Store(loaded: int)      // about to store the increment
    | Delay(left: nat)        // empty loop inside the critical section
    | Release                 // about to store 0 to the lock word
  {
    predicate Holds() { Check? || Load? || Store? || Delay? || Release? }
    /** Holds the lock, and this call's increment is not done yet. */
    predicate Before() { Check? || Load? || Store? }
  }

  /** A CPU: its position, whether it has changed shared memory since its last call began, and how many
      of its calls returned 0. */
  datatype Cpu = Cpu(pc: Pc, dirty: bool, done: nat)

  datatype Shared = Shared(lock: bool, counter: int)

  datatype World = World(shared: Shared, cpus: seq<Cpu>)

  /** What stays fixed: the counter's limit, the delay, and the configured number of CPUs. */
  datatype Config = Config(limit: int, csCount: nat, nrCpus: nat)

  function WrapI32(x: int): (r: int) {
    (x + 0x8000_0000) % 0x1_0000_0000 - 0x8000_0000
  }

  /** One step of one CPU: new shared memory, new position. */
  function Next(cfg: Config, s: Shared, pc: Pc): (r: (Shared, Pc)) {
    match pc
    case Idle(_) => if cfg.nrCpus > MAX_NR_CPUS then (s, Idle(-EOPNOTSUPP)) else (s, Trying(0))
    case Trying(k) =>
      if k >= LOCK_RETRY_BOUND then (s, Idle(-ETIMEDOUT))
      else if !s.lock then (s.(lock := true), Check)
      else (s, Trying(k + 1))
    case Check => (s, if s.counter != cfg.limit then Load else Delay(cfg.csCount))
    case Load => (s, Store(s.counter))
    case Store(v) => (s.(counter := WrapI32(v + 1)), Delay(cfg.csCount))
    case Delay(n) => (s, if n == 0 then Release else Delay(n - 1))
    case Release => (s.(lock := false), Idle(0))
  }

  function StepCpu(cfg: Config, w: World, c: nat): (w': World)
    requires c < |w.cpus|
    ensures |w'.cpus| == |w.cpus|
  {
    var cpu := w.cpus[c];
    var (s, pc) := Next(cfg, w.shared, cpu.pc);
    var dirty := (if cpu.pc.Idle? then false else cpu.dirty) || s != w.shared;
    World(s, w.cpus[c := Cpu(pc, dirty, if cpu.pc.Release? then cpu.done + 1 else cpu.done)])
  }

  /** A schedule names the CPU that takes each step. */
  function Run(cfg: Config, w: World, schedule: seq<nat>): (w': World)
    requires forall i :: 0 <= i < |schedule| ==> schedule[i] < |w.cpus|
    ensures |w'.cpus| == |w.cpus|
    decreases |schedule|
  {
    if schedule == [] then w else Run(cfg, StepCpu(cfg, w, schedule[0]), schedule[1..])
  }

  // ----- what every step keeps -----

  /** Calls that have returned 0, over all CPUs. */
  function Successes(cpus: seq<Cpu>): (n: nat) {
    if cpus == [] then 0 else cpus[0].done + Successes(cpus[1..])
  }

  lemma {:induction false} SuccessesUpdate(cpus: seq<Cpu>, c: nat, cpu: Cpu)
    requires c < |cpus|
    ensures Successes(cpus[c := cpu]) == Successes(cpus) - cpus[c].done + cpu.done
  {
    if c == 0 {
      assert cpus[c := cpu][1..] == cpus[1..];
    } else {
      assert cpus[c := cpu][1..] == cpus[1..][c - 1 := cpu];
      SuccessesUpdate(cpus[1..], c - 1, cpu);
    }
  }

  /** The counter as the finished phases leave it. */
  function Expected(cfg: Config, initial: int, w: World): (n: int) {
    Min(cfg.limit, initial + Successes(w.cpus))
  }

  ghost predicate CpuOk(cfg: Config, initial: int, w: World, c: nat)
    requires c < |w.cpus|
  {
    var cpu := w.cpus[c];
    && (cpu.pc.Holds() ==> w.shared.lock)
    && (cpu.pc.Before() ==> w.shared.counter == Expected(cfg, initial, w))
    && (cpu.pc.Holds() && !cpu.pc.Before() ==> w.shared.counter == Min(cfg.limit, Expected(cfg, initial, w) + 1))
    && (cpu.pc.Load? ==> w.shared.counter != cfg.limit)
    && (cpu.pc.Store? ==> w.shared.counter != cfg.limit && cpu.pc.loaded == w.shared.counter)
    && (cpu.pc.Trying? || (cpu.pc.Idle? && cpu.pc.ret < 0) ==> !cpu.dirty)
    && (cpu.pc.Holds() ==> cpu.dirty)
  }

  /** At most one CPU holds the lock; a free lock is held by none and leaves the counter at its expected
      value. */
  ghost predicate Inv(cfg: Config, initial: int, w: World) {
    && (forall c :: 0 <= c < |w.cpus| ==> CpuOk(cfg, initial, w, c))
    && (forall c, d :: 0 <= c < d < |w.cpus| ==> !(w.cpus[c].pc.Holds() && w.cpus[d].pc.Holds()))
    && (if w.shared.lock then SomeHolder(w) else w.shared.counter == Expected(cfg, initial, w))
  }

  ghost predicate SomeHolder(w: World) {
    exists c :: 0 <= c < |w.cpus| && w.cpus[c].pc.Holds()
  }

  ghost predicate Sensible(cfg: Config, initial: int) {
    -0x8000_0000 <= initial <= cfg.limit < 0x8000_0000
  }

  lemma {:induction false} StepKeeps(cfg: Config, initial: int, w: World, c: nat)
    requires Sensible(cfg, initial) && Inv(cfg, initial, w) && c < |w.cpus|
    ensures Inv(cfg, initial, StepCpu(cfg, w, c))
  {
    var w' := StepCpu(cfg, w, c);
    assert CpuOk(cfg, initial, w, c);
    SuccessesUpdate(w.cpus, c, w'.cpus[c]);
    hide Successes;
    forall d | 0 <= d < |w'.cpus|
      ensures CpuOk(cfg, initial, w', d)
      ensures d != c && w.cpus[d].pc.Holds() ==> w.shared.lock && !w.cpus[c].pc.Holds()
    {
      assert CpuOk(cfg, initial, w, d);
    }
    if w'.shared.lock {
      if w.shared.lock && !w.cpus[c].pc.Holds() {
        var d :| 0 <= d < |w.cpus| && w.cpus[d].pc.Holds();
        assert w'.cpus[d].pc.Holds();
      } else {
        assert w'.cpus[c].pc.Holds();
      }
    }
  }

  ghost predicate Fresh(w: World, initial: int) {
    w.shared == Shared(false, initial) && forall c :: 0 <= c < |w.cpus| ==> w.cpus[c] == Cpu(Idle(0), false, 0)
  }

  lemma {:induction false} NoneYet(cpus: seq<Cpu>)
    requires forall c :: 0 <= c < |cpus| ==> cpus[c].done == 0
    ensures Successes(cpus) == 0
  {
    if cpus != [] { NoneYet(cpus[1..]); }
  }

  lemma {:induction false} RunKeeps(cfg: Config, initial: int, w: World, schedule: seq<nat>)
    requires Sensible(cfg, initial) && Inv(cfg, initial, w)
    requires forall i :: 0 <= i < |schedule| ==> schedule[i] < |w.cpus|
    ensures Inv(cfg, initial, Run(cfg, w, schedule))
    decreases |schedule|
  {
    hide Inv, StepCpu;
    if schedule != [] {
      StepKeeps(cfg, initial, w, schedule[0]);
      RunKeeps(cfg, initial, StepCpu(cfg, w, schedule[0]), schedule[1..]);
    }
  }

  /** From a fresh start, whatever the schedule: at most one CPU is between acquire and release; a call
      that gave up has changed nothing; and while the lock is free the counter is the initial value plus
      the number of successful calls, capped at the limit. */
  lemma SpinLockIsSafe(cfg: Config, initial: int, w0: World, schedule: seq<nat>)
    requires Sensible(cfg, initial) && Fresh(w0, initial) && forall i :: 0 <= i < |schedule| ==> schedule[i] < |w0.cpus|
    ensures var w := Run(cfg, w0, schedule);
            && (forall c, d ::
                  0 <= c < |w.cpus| && 0 <= d < |w.cpus| && w.cpus[c].pc.Holds() && w.cpus[d].pc.Holds() ==> c == d)
            && (w.shared.lock <==> exists c :: 0 <= c < |w.cpus| && w.cpus[c].pc.Holds())
            && (forall c :: 0 <= c < |w.cpus| && (w.cpus[c].pc.Trying? || w.cpus[c].pc == Idle(-ETIMEDOUT)) ==>
                !w.cpus[c].dirty)
            && (!w.shared.lock ==> w.shared.counter == Min(cfg.limit, initial + Successes(w.cpus)))
            && w.shared.counter <= cfg.limit
  {
    NoneYet(w0.cpus);
    hide Successes, Run;
    assert Inv(cfg, initial, w0);
    RunKeeps(cfg, initial, w0, schedule);
    var w := Run(cfg, w0, schedule);
    forall c | 0 <= c < |w.cpus|
      ensures w.cpus[c].pc.Holds() ==> w.shared.lock && w.shared.counter <= cfg.limit
      ensures w.cpus[c].pc.Trying? || w.cpus[c].pc == Idle(-ETIMEDOUT) ==> !w.cpus[c].dirty
    {
      assert CpuOk(cfg, initial, w, c);
    }
  }

  // ----- every call returns -----

  /** Own steps a call still needs at most. */
  function Remaining(cfg: Config, pc: Pc): (n: nat) {
    match pc
    case Idle(_) => 0
    case Trying(k) => (if k < LOCK_RETRY_BOUND then LOCK_RETRY_BOUND - k else 0) + cfg.csCount + 6
    case Check => cfg.csCount + 5
    case Load => cfg.csCount + 4
    case Store(_) => cfg.csCount + 3
    case Delay(n) => n + 2
    case Release => 1
  }

  function Turns(schedule: seq<nat>, c: nat): (n: nat) {
    if schedule == [] then 0 else (if schedule[0] == c then 1 else 0) + Turns(schedule[1..], c)
  }

  lemma OwnStepAdvances(cfg: Config, w: World, x: nat, c: nat)
    requires x < |w.cpus| && c < |w.cpus| && !w.cpus[c].pc.Idle?
    ensures var pc, pc' := w.cpus[c].pc, StepCpu(cfg, w, x).cpus[c].pc;
            Remaining(cfg, pc') + (if x == c then 1 else 0) <= Remaining(cfg, pc)
  {
  }

  /** Whatever the others do, a call returns once its CPU has had as many turns as it still needs; a
      lock holder among them therefore lets go. */
  lemma {:induction false} CallReturns(cfg: Config, w: World, c: nat, schedule: seq<nat>) returns (n: nat)
    requires c < |w.cpus| && (forall i :: 0 <= i < |schedule| ==> schedule[i] < |w.cpus|)
    requires Turns(schedule, c) >= Remaining(cfg, w.cpus[c].pc)
    ensures n <= |schedule| && Run(cfg, w, schedule[..n]).cpus[c].pc.Idle?
    decreases |schedule|
  {
    hide StepCpu, Remaining;
    n := 0;
    if !w.cpus[c].pc.Idle? {
      assert Remaining(cfg, w.cpus[c].pc) > 0 by { StillNeeded(cfg, w.cpus[c].pc); }
      var x := schedule[0];
      OwnStepAdvances(cfg, w, x, c);
      n := CallReturns(cfg, StepCpu(cfg, w, x), c, schedule[1..]);
      n := n + 1;
      assert schedule[..n][1..] == schedule[1..][..n - 1];
    }
  }

  lemma StillNeeded(cfg: Config, pc: Pc)
    requires !pc.Idle?
    ensures Remaining(cfg, pc) > 0
  {
  }

  function Alone(cfg: Config, w: World, c: nat, n: nat): (w': World)
    requires c < |w.cpus|
    ensures |w'.cpus| == |w.cpus|
  {
    if n == 0 then w else StepCpu(cfg, Alone(cfg, w, c, n - 1), c)
  }

  /** The world with that shared memory and that CPU. */
  function With(w: World, c: nat, s: Shared, cpu: Cpu): (w': World)
    requires c < |w.cpus|
    ensures |w'.cpus| == |w.cpus|
  {
    World(s, w.cpus[c := cpu])
  }

  lemma WithTwice(w: World, c: nat, s: Shared, cpu: Cpu, s': Shared, cpu': Cpu)
    requires c < |w.cpus|
    ensures var w1 := With(w, c, s, cpu);
            w1.shared == s && w1.cpus[c] == cpu && With(w1, c, s', cpu') == With(w, c, s', cpu')
  {
  }

  /** The empty loop changes nothing but its own count. */
  lemma {:induction false} DelayPasses(cfg: Config, w: World, c: nat, k: nat)
    requires c < |w.cpus| && w.cpus[c].pc.Delay? && k <= w.cpus[c].pc.left
    ensures var cpu := w.cpus[c];
            Alone(cfg, w, c, k) == With(w, c, w.shared, cpu.(pc := Delay(cpu.pc.left - k)))
  {
    if k == 0 {
      assert w.cpus[c := w.cpus[c].(pc := Delay(w.cpus[c].pc.left))] == w.cpus;
    } else {
      DelayPasses(cfg, w, c, k - 1);
    }
  }

  lemma {:induction false} AloneSplit(cfg: Config, w: World, c: nat, m: nat, n: nat)
    requires c < |w.cpus|
    ensures Alone(cfg, w, c, m + n) == Alone(cfg, Alone(cfg, w, c, m), c, n)
  {
    hide StepCpu;
    if n > 0 {
      AloneSplit(cfg, w, c, m, n - 1);
      AloneStep(cfg, w, c, m + n - 1);
    }
  }

  /** A call that finds the lock free, and is left alone, returns 0 with the lock free again and the counter
      one higher as a 32-bit word, or unchanged at its limit. */
  lemma FreeLockIsTaken(cfg: Config, w: World, c: nat) returns (n: nat)
    requires c < |w.cpus| && w.cpus[c].pc.Idle? && !w.shared.lock && cfg.nrCpus <= 1024
    requires -0x8000_0000 <= w.shared.counter <= 0x7FFF_FFFF
    ensures var w', v := Alone(cfg, w, c, n), w.shared.counter;
            && w'.cpus == w.cpus[c := Cpu(Idle(0), true, w.cpus[c].done + 1)]
            && !w'.shared.lock
            && w'.shared.counter == if v == cfg.limit then v else if v == 0x7FFF_FFFF then -0x8000_0000 else v + 1
  {
    hide Alone, StepCpu, With;
    var v, done := w.shared.counter, w.cpus[c].done;
    var m := if v == cfg.limit then 3 else 5;
    var held := Shared(true, if v == cfg.limit then v else if v == 0x7FFF_FFFF then -0x8000_0000 else v + 1);
    var before, after := Cpu(Delay(cfg.csCount), true, done), Cpu(Delay(0), true, done);
    LockTaken(cfg, w, c);
    WithTwice(w, c, held, before, held, after);
    DelayPasses(cfg, With(w, c, held, before), c, cfg.csCount);
    AloneSplit(cfg, w, c, m, cfg.csCount);
    var k := m + cfg.csCount;
    assert Alone(cfg, w, c, k) == With(w, c, held, after);
    Released(cfg, w, c, k, held, done);
    n := k + 2;
  }

  lemma Released(cfg: Config, w: World, c: nat, k: nat, held: Shared, done: nat)
    requires c < |w.cpus| && Alone(cfg, w, c, k) == With(w, c, held, Cpu(Delay(0), true, done))
    ensures var w' := Alone(cfg, w, c, k + 2);
            w'.cpus == w.cpus[c := Cpu(Idle(0), true, done + 1)] && w'.shared == held.(lock := false)
  {
    hide Alone;
    AloneStep(cfg, w, c, k);
    AloneStep(cfg, w, c, k + 1);
    var w1 := With(w, c, held, Cpu(Delay(0), true, done));
    Releases(cfg, w1, c);
    hide StepCpu;
  }

  lemma Releases(cfg: Config, w: World, c: nat)
    requires c < |w.cpus| && w.cpus[c].pc == Delay(0) && w.cpus[c].dirty
    ensures StepCpu(cfg, StepCpu(cfg, w, c), c)
              == With(w, c, w.shared.(lock := false), Cpu(Idle(0), true, w.cpus[c].done + 1))
  {
  }

  lemma AloneStep(cfg: Config, w: World, c: nat, n: nat)
    requires c < |w.cpus|
    ensures Alone(cfg, w, c, n + 1) == StepCpu(cfg, Alone(cfg, w, c, n), c)
  {
  }

  lemma LockTaken(cfg: Config, w: World, c: nat)
    requires c < |w.cpus| && w.cpus[c].pc.Idle? && !w.shared.lock && cfg.nrCpus <= 1024
    requires -0x8000_0000 <= w.shared.counter <= 0x7FFF_FFFF
    ensures var v, held := w.shared.counter, Cpu(Delay(cfg.csCount), true, w.cpus[c].done);
            && (v == cfg.limit ==> Alone(cfg, w, c, 3) == With(w, c, Shared(true, v), held))
            && (v != cfg.limit ==>
                  var v' := if v == 0x7FFF_FFFF then -0x8000_0000 else v + 1;
                  Alone(cfg, w, c, 5) == With(w, c, Shared(true, v'), held))
  {
    AloneStep(cfg, w, c, 0);
    AloneStep(cfg, w, c, 1);
    AloneStep(cfg, w, c, 2);
    AloneStep(cfg, w, c, 3);
    AloneStep(cfg, w, c, 4);
    assert Alone(cfg, w, c, 0) == w;
    hide Alone;
  }

  /** How a step ends a call: -95 exactly when more than 1024 CPUs are configured, -110 exactly after 8388608
      tries, 0 exactly at the release. A try takes the lock exactly when it is free. */
  lemma CallEnds(cfg: Config, s: Shared, pc: Pc)
    ensures var (s', pc') := Next(cfg, s, pc);
            && (pc' == Idle(-95) <==> pc.Idle? && cfg.nrCpus > 1024)
            && (pc' == Idle(-110) <==> pc.Trying? && pc.tries >= 8388608)
            && (pc' == Idle(0) <==> pc.Release?)
            && (pc'.Idle? ==> pc'.ret in {-95, -110, 0})
            && (pc.Trying? && pc.tries < 8388608 ==> if s.lock then s' == s && pc' == Trying(pc.tries + 1)
                                                     else s' == s.(lock := true) && pc' == Check)
  {
  }
}
