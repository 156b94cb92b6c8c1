/** The scheduling simulator of cpu/CFS-vs-RRML1-sim.py: tasks, policies and the quantities its main
    loop conserves, over exact real numbers. */
module SchedulerModel {
  import opened Words

  datatype Raw = Raw(arrival: real, burst: real, weight: real)

  datatype Task = Task(
    arrival: real, remaining: real, start: Option<real>, end: Option<real>, vruntime: real, weight: real)

  /** A task is done when this much or less is left of it. */
  const EPSILON := 0.000000001

  function Fresh(r: Raw): Task { Task(r.arrival, r.burst, None, None, 0.0, r.weight) }

  /** A scheduling policy.  The round number makes room for policies with a memory, such as the
      learning one: any behaviour over one run is some function of it. */
  datatype Policy = Policy(
    pick: (nat, seq<Task>, real) -> nat,
    slice: (nat, Task, nat) -> real,
    update: (nat, Task, real) -> real)

  /** Picks name a queued task and slices are at least `q` long. */
  ghost predicate ValidPolicy(p: Policy, q: real)
  {
    && q > 0.0
    && (forall n: nat, ready: seq<Task>, now: real :: ready != [] ==> p.pick(n, ready, now) < |ready|)
    && (forall n: nat, task: Task, others: nat :: p.slice(n, task, others) >= q)
  }

  // ----- sums over the ready queue

  datatype Measure = Work | Turns(q: real)

  function Ceil(x: real): int { -((-x).Floor) }

  /** Rounds a task with `x` left can need with slices of at least `q`; one even if nothing is left. */
  function Rounds(x: real, q: real): int
    requires q > 0.0
  {
    if x <= 0.0 then 1 else Ceil(x / q)
  }

  /** Remaining work of a task, or the rounds it can still need with slices of at least `q`. */
  function Eval(m: Measure, x: real): real
    requires m.Turns? ==> m.q > 0.0
  {
    match m
    case Work => x
    case Turns(q) => Rounds(x, q) as real
  }

  predicate Indices(ready: seq<nat>, n: nat) { forall i :: 0 <= i < |ready| ==> ready[i] < n }

  ghost function Sum(m: Measure, ts: seq<Task>, ready: seq<nat>): real
    requires Indices(ready, |ts|) && (m.Turns? ==> m.q > 0.0)
  {
    if ready == [] then 0.0
    else
      var r := ready[..|ready| - 1];
      assert Indices(r, |ts|);
      Sum(m, ts, r) + Eval(m, ts[ready[|ready| - 1]].remaining)
  }

  lemma {:induction false} SumAppend(m: Measure, ts: seq<Task>, ready: seq<nat>, i: nat)
    requires Indices(ready, |ts|) && i < |ts| && (m.Turns? ==> m.q > 0.0)
    ensures Indices(ready + [i], |ts|)
    ensures Sum(m, ts, ready + [i]) == Sum(m, ts, ready) + Eval(m, ts[i].remaining)
  {
    assert (ready + [i])[..|ready|] == ready;
  }

  /** The queue without entry `k`. */
  function Without(ready: seq<nat>, k: nat): seq<nat>
    requires k < |ready|
  {
    ready[..k] + ready[k + 1..]
  }

  lemma {:induction false} SumWithout(m: Measure, ts: seq<Task>, ready: seq<nat>, k: nat)
    requires Indices(ready, |ts|) && k < |ready| && (m.Turns? ==> m.q > 0.0)
    ensures Indices(Without(ready, k), |ts|)
    ensures Sum(m, ts, ready) == Sum(m, ts, Without(ready, k)) + Eval(m, ts[ready[k]].remaining)
    decreases |ready|
  {
    var r, last := ready[..|ready| - 1], ready[|ready| - 1];
    if k == |ready| - 1 {
      assert Without(ready, k) == r;
    } else {
      SumWithout(m, ts, r, k);
      assert Without(ready, k) == Without(r, k) + [last];
      SumAppend(m, ts, Without(r, k), last);
    }
  }

  /** Tasks outside the queue do not matter to its sums. */
  lemma {:induction false} SumFrame(m: Measure, ts: seq<Task>, us: seq<Task>, ready: seq<nat>)
    requires |ts| == |us| && Indices(ready, |ts|) && (m.Turns? ==> m.q > 0.0)
    requires forall i :: 0 <= i < |ready| ==> us[ready[i]].remaining == ts[ready[i]].remaining
    ensures Sum(m, us, ready) == Sum(m, ts, ready)
  {
    if ready != [] { SumFrame(m, ts, us, ready[..|ready| - 1]); }
  }

  lemma {:induction false} SumNonNegative(ts: seq<Task>, ready: seq<nat>)
    requires Indices(ready, |ts|) && forall i :: 0 <= i < |ready| ==> ts[ready[i]].remaining >= 0.0
    ensures Sum(Work, ts, ready) >= 0.0
  {
    if ready != [] { SumNonNegative(ts, ready[..|ready| - 1]); }
  }

  // ----- rounds

  lemma {:induction false} DivLess(x: real, y: real, q: real)
    requires q > 0.0 && x <= y
    ensures x / q <= y / q
  {
  }

  lemma {:induction false} DivShift(x: real, q: real)
    requires q > 0.0
    ensures (x - q) / q == x / q - 1.0
  {
    var y, z := x / q, (x - q) / q;
    assert y * q == x && z * q == x - q;
    assert (y - 1.0) * q == y * q - q;
    Cancel(z, y - 1.0, q);
  }

  lemma {:induction false} Cancel(a: real, b: real, q: real)
    requires q > 0.0 && a * q == b * q
    ensures a == b
  {
    assert a < b ==> a * q < b * q;
    assert b < a ==> b * q < a * q;
  }

  lemma {:induction false} RoundsPositive(x: real, q: real)
    requires q > 0.0
    ensures Rounds(x, q) >= 1
  {
    if x > 0.0 { assert x / q > 0.0; }
  }

  /** A round that serves a full slice, or all that is left, saves one. */
  lemma {:induction false} TurnsDrop(x: real, s: real, q: real)
    requires q > 0.0 && 0.0 <= s <= x && (s >= q || s == x)
    ensures Rounds(x, q) >= 1 + if x - s <= 0.0 then 0 else Rounds(x - s, q)
  {
    RoundsPositive(x, q);
    if x - s > 0.0 {
      DivLess(x - s, x - q, q);
      DivShift(x, q);
      CeilShift((x - s) / q, x / q);
    }
  }

  lemma {:induction false} CeilShift(a: real, b: real)
    requires a <= b - 1.0
    ensures Ceil(a) + 1 <= Ceil(b)
  {
  }

  /** Rounds the tasks not yet admitted can need. */
  ghost function Future(raw: seq<Raw>, idx: nat, q: real): real
    requires idx <= |raw| && q > 0.0
    decreases |raw| - idx
  {
    if idx == |raw| then 0.0 else Rounds(raw[idx].burst, q) as real + Future(raw, idx + 1, q)
  }

  // ----- the makespan

  function MaxR(a: real, b: real): real { if a < b then b else a }

  /** When a single server that never idles with work at hand has served the first `i` tasks. */
  function Busy(raw: seq<Raw>, i: nat): real
    requires i <= |raw|
  {
    if i == 0 then 0.0 else MaxR(Busy(raw, i - 1), raw[i - 1].arrival) + raw[i - 1].burst
  }

  /** Clock plus work at hand (`carry` is the running task's) trails the ideal server by at most the
      work dropped so far. */
  ghost predicate Balance(raw: seq<Raw>, ts: seq<Task>, ready: seq<nat>, idx: nat, t: real, carry: real, dropped: real)
    requires idx <= |raw| && Indices(ready, |ts|)
  {
    0.0 <= MaxR(Busy(raw, idx), t) - (t + Sum(Work, ts, ready) + carry) <= dropped
  }

  /** The server has work up to the present, or the clock has just jumped to an arrival. */
  ghost predicate Anchored(raw: seq<Raw>, idx: nat, t: real)
    requires idx <= |raw|
  {
    Busy(raw, idx) >= t || (idx < |raw| && raw[idx].arrival == t)
  }

  /** Admitting a task that has arrived keeps the balance. */
  lemma {:induction false} AdmitBalance(raw: seq<Raw>, ts: seq<Task>, ready: seq<nat>, idx: nat, t: real, carry: real, dropped: real)
    requires idx < |raw| == |ts| && Indices(ready, |ts|) && ts[idx].remaining == raw[idx].burst
    requires Balance(raw, ts, ready, idx, t, carry, dropped) && Anchored(raw, idx, t)
    requires raw[idx].arrival <= t && raw[idx].burst >= 0.0 && Sum(Work, ts, ready) >= 0.0 && carry >= 0.0
    ensures Indices(ready + [idx], |ts|)
    ensures Balance(raw, ts, ready + [idx], idx + 1, t, carry, dropped)
    ensures Busy(raw, idx + 1) >= t
  {
    SumAppend(Work, ts, ready, idx);
  }
}
