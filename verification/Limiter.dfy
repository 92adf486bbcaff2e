/** The Limiter of ibdb/src/log/format.h, as the atomic steps that any number of threads take. */
module Limiters {
  /** `held`: resources acquired and not released. `failed`: a failed attempt that has taken its
      unit from the counter and not yet put it back. */
  datatype Thread = Thread(held: nat, failed: bool)

  datatype State = State(counter: int, threads: seq<Thread>)

  datatype Step =
    | Take(t: nat)      // fetch_sub of Acquire
    | PutBack(t: nat)   // fetch_add of a failed Acquire
    | Release(t: nat)   // fetch_add of Release

  predicate Enabled(s: State, step: Step) {
    && step.t < |s.threads|
    && match step
       case Take(t) => !s.threads[t].failed
       case PutBack(t) => s.threads[t].failed
       case Release(t) => !s.threads[t].failed && s.threads[t].held > 0
  }

  /** The attempt to acquire succeeds. */
  predicate Succeeds(s: State) { s.counter > 0 }

  function Next(s: State, step: Step): State
    requires Enabled(s, step)
  {
    var th := s.threads[step.t];
    match step
    case Take(t) =>
      State(s.counter - 1, s.threads[t := if Succeeds(s) then th.(held := th.held + 1) else th.(failed := true)])
    case PutBack(t) => State(s.counter + 1, s.threads[t := th.(failed := false)])
    case Release(t) => State(s.counter + 1, s.threads[t := th.(held := th.held - 1)])
  }

  function Init(max: nat, threads: nat): State {
    State(max, seq(threads, _ => Thread(0, false)))
  }

  ghost predicate Run(steps: seq<Step>, s: State, s': State)
    decreases |steps|
  {
    if steps == [] then s' == s else Enabled(s, steps[0]) && Run(steps[1..], Next(s, steps[0]), s')
  }

  function Held(ts: seq<Thread>): nat {
    if ts == [] then 0 else ts[0].held + Held(ts[1..])
  }

  function Failed(ts: seq<Thread>): nat {
    if ts == [] then 0 else (if ts[0].failed then 1 else 0) + Failed(ts[1..])
  }

  lemma {:induction false} Changed(ts: seq<Thread>, t: nat, th: Thread)
    requires t < |ts|
    ensures Held(ts[t := th]) == Held(ts) - ts[t].held + th.held
    ensures Failed(ts[t := th]) == Failed(ts) - (if ts[t].failed then 1 else 0) + (if th.failed then 1 else 0)
  {
    if t == 0 {
      assert ts[0 := th][1..] == ts[1..];
    } else {
      assert ts[t := th][1..] == ts[1..][t - 1 := th];
      Changed(ts[1..], t - 1, th);
    }
  }

  /** What each step does to the counter, to the resources held and to the failed attempts: an
      attempt takes a unit in either case, and a failed one gives it back. */
  lemma StepEffects(s: State, step: Step)
    requires Enabled(s, step)
    ensures var s' := Next(s, step);
            match step
            case Take(_) =>
              && s'.counter == s.counter - 1
              && Held(s'.threads) == Held(s.threads) + (if s.counter > 0 then 1 else 0)
              && Failed(s'.threads) == Failed(s.threads) + (if s.counter > 0 then 0 else 1)
            case PutBack(_) =>
              s'.counter == s.counter + 1 && Held(s'.threads) == Held(s.threads)
              && Failed(s'.threads) == Failed(s.threads) - 1
            case Release(_) =>
              s'.counter == s.counter + 1 && Held(s'.threads) == Held(s.threads) - 1
              && Failed(s'.threads) == Failed(s.threads)
  {
    Changed(s.threads, step.t, Next(s, step).threads[step.t]);
  }

  /** Every unit is in the counter, held, or on its way back, and no unit is lent out twice. */
  predicate Inv(s: State, max: nat) {
    && s.counter + Held(s.threads) + Failed(s.threads) == max
    && s.counter + Failed(s.threads) >= 0
  }

  lemma {:induction false} InitInv(max: nat, threads: nat)
    ensures Inv(Init(max, threads), max)
    decreases threads
  {
    if threads > 0 {
      InitInv(max, threads - 1);
      assert Init(max, threads).threads[1..] == Init(max, threads - 1).threads;
    }
  }

  lemma StepKeepsInv(s: State, step: Step, max: nat)
    requires Inv(s, max) && Enabled(s, step)
    ensures Inv(Next(s, step), max)
  {
    Changed(s.threads, step.t, Next(s, step).threads[step.t]);
  }

  lemma {:induction false} RunKeepsInv(steps: seq<Step>, s: State, s': State, max: nat)
    requires Inv(s, max) && Run(steps, s, s')
    ensures Inv(s', max)
    decreases |steps|
  {
    if steps != [] {
      StepKeepsInv(s, steps[0], max);
      RunKeepsInv(steps[1..], Next(s, steps[0]), s', max);
    }
  }

  /** Under every interleaving the threads never hold more than the maximum, and an attempt
      succeeds just when the resources held and the failed attempts under way are below it. */
  lemma NeverTooMany(max: nat, threads: nat, steps: seq<Step>, s: State)
    requires Run(steps, Init(max, threads), s)
    ensures s.counter + Held(s.threads) + Failed(s.threads) == max
    ensures Held(s.threads) <= max
    ensures Succeeds(s) <==> Held(s.threads) + Failed(s.threads) < max
  {
    InitInv(max, threads);
    RunKeepsInv(steps, Init(max, threads), s, max);
  }

  /** An attempt can fail although nothing is held: two threads attempt, the first succeeds and
      gives its unit back, and the second has not yet put its own back. */
  lemma FailsWhileFree()
    ensures var s := State(0, [Thread(0, false), Thread(0, true), Thread(0, false)]);
            && Run([Take(0), Take(1), Release(0)], Init(1, 3), s)
            && Held(s.threads) == 0 && Enabled(s, Take(2)) && !Succeeds(s)
  {
    var s0 := Init(1, 3);
    var s1 := Next(s0, Take(0));
    var s2 := Next(s1, Take(1));
    var s := State(0, [Thread(0, false), Thread(0, true), Thread(0, false)]);
    assert s0.threads == [Thread(0, false), Thread(0, false), Thread(0, false)];
    assert s1.threads == [Thread(1, false), Thread(0, false), Thread(0, false)];
    assert s2.threads == [Thread(1, false), Thread(0, true), Thread(0, false)];
    var steps := [Take(0), Take(1), Release(0)];
    assert steps[1..] == [Take(1), Release(0)] && steps[1..][1..] == [Release(0)] && steps[1..][1..][1..] == [];
    assert Next(s2, Release(0)) == s;
    assert Run(steps[1..][1..][1..], s, s);
    assert Run(steps[1..][1..], s2, s);
    assert Run(steps[1..], s1, s);
  }
}
