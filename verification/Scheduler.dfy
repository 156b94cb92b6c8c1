/** The scheduler loop, for every policy: it never picks from an empty queue, serves every task
    exactly once, ends within the rounds the slices allow, and finishes when an ideal
    work-conserving server would, up to the work it drops. */
module Scheduler {
  import opened Words
  import opened SchedulerModel

  ghost predicate NoRepeats(s: seq<nat>) { forall i, j :: 0 <= i < j < |s| ==> s[i] != s[j] }

  /** Every admitted task is in exactly one of the queue and the finished list. */
  ghost predicate Placed(ready: seq<nat>, finished: seq<nat>, idx: nat)
  {
    && Indices(ready, idx) && Indices(finished, idx) && |ready| + |finished| == idx
    && NoRepeats(ready + finished)
  }

  predicate Waiting(task: Task, r: Raw, t: real)
  {
    && task.arrival == r.arrival <= t && task.remaining >= 0.0 && task.end == None
    && (task.start.Some? ==> r.arrival <= task.start.value <= t)
  }

  predicate Finished(task: Task, r: Raw, t: real)
  {
    && task.arrival == r.arrival && 0.0 <= task.remaining <= EPSILON
    && task.start.Some? && task.end.Some? && r.arrival <= task.start.value <= task.end.value <= t
  }

  ghost predicate TasksOk(raw: seq<Raw>, ts: seq<Task>, ready: seq<nat>, finished: seq<nat>, idx: nat, t: real)
    requires |ts| == |raw| && idx <= |raw| && Indices(ready, idx) && Indices(finished, idx)
  {
    && (forall i :: idx <= i < |ts| ==> ts[i] == Fresh(raw[i]))
    && (forall k :: 0 <= k < |ready| ==> Waiting(ts[ready[k]], raw[ready[k]], t))
    && (forall k :: 0 <= k < |finished| ==> Finished(ts[finished[k]], raw[finished[k]], t))
  }

  /** Everything the loop keeps. */
  ghost predicate LoopInv(raw: seq<Raw>, ts: seq<Task>, ready: seq<nat>, finished: seq<nat>, idx: nat,
                          t: real, rounds: nat, q: real)
  {
    && |ts| == |raw| && idx <= |raw| && q > 0.0 && Placed(ready, finished, idx)
    && TasksOk(raw, ts, ready, finished, idx, t)
    && Indices(ready, |ts|)
    && Busy(raw, idx) >= t
    && Balance(raw, ts, ready, idx, t, 0.0, |finished| as real * EPSILON)
    && rounds as real + Sum(Turns(q), ts, ready) + Future(raw, idx, q) <= Future(raw, 0, q)
  }

  ghost predicate NonnegativeBursts(raw: seq<Raw>) { forall i :: 0 <= i < |raw| ==> raw[i].burst >= 0.0 }

  lemma {:induction false} ReadyWork(raw: seq<Raw>, ts: seq<Task>, ready: seq<nat>, finished: seq<nat>, idx: nat, t: real)
    requires |ts| == |raw| && idx <= |raw| && Placed(ready, finished, idx)
    requires TasksOk(raw, ts, ready, finished, idx, t)
    ensures Indices(ready, |ts|) && Sum(Work, ts, ready) >= 0.0
  {
    forall i | 0 <= i < |ready| ensures ts[ready[i]].remaining >= 0.0 {
      assert Waiting(ts[ready[i]], raw[ready[i]], t);
    }
    SumNonNegative(ts, ready);
  }

  /** One admission, with the running task's `carry` outside the queue. */
  ghost predicate AdmitInv(raw: seq<Raw>, ts: seq<Task>, ready: seq<nat>, idx: nat, t: real, carry: real,
                           dropped: real, spent: real, q: real)
  {
    && |ts| == |raw| && idx <= |raw| && q > 0.0 && Indices(ready, |ts|)
    && Balance(raw, ts, ready, idx, t, carry, dropped)
    && spent + Sum(Turns(q), ts, ready) + Future(raw, idx, q) <= Future(raw, 0, q)
  }

  lemma {:induction false} AdmitOne(raw: seq<Raw>, ts: seq<Task>, ready: seq<nat>, idx: nat, t: real, carry: real,
                                    dropped: real, spent: real, q: real)
    requires AdmitInv(raw, ts, ready, idx, t, carry, dropped, spent, q) && idx < |raw|
    requires Anchored(raw, idx, t) && raw[idx].arrival <= t && raw[idx].burst >= 0.0
    requires Sum(Work, ts, ready) >= 0.0 && carry >= 0.0 && ts[idx] == Fresh(raw[idx])
    ensures AdmitInv(raw, ts, ready + [idx], idx + 1, t, carry, dropped, spent, q)
    ensures Busy(raw, idx + 1) >= t && Sum(Work, ts, ready + [idx]) >= 0.0
  {
    AdmitBalance(raw, ts, ready, idx, t, carry, dropped);
    SumAppend(Work, ts, ready, idx);
    SumAppend(Turns(q), ts, ready, idx);
  }

  /** `admit`: moves everything that has arrived to the queue. */
  method Admit(raw: seq<Raw>, ts: seq<Task>, ready0: seq<nat>, idx0: nat, upTo: real,
               ghost carry: real, ghost dropped: real, ghost spent: real, ghost q: real)
    returns (ready: seq<nat>, idx: nat)
    requires AdmitInv(raw, ts, ready0, idx0, upTo, carry, dropped, spent, q)
    requires Anchored(raw, idx0, upTo) && NonnegativeBursts(raw) && carry >= 0.0 && Sum(Work, ts, ready0) >= 0.0
    requires forall i :: idx0 <= i < |ts| ==> ts[i] == Fresh(raw[i])
    ensures idx0 <= idx <= |raw| && ready == ready0 + Upto(idx0, idx)
    ensures forall i :: idx0 <= i < idx ==> raw[i].arrival <= upTo
    ensures idx < |raw| ==> raw[idx].arrival > upTo
    ensures AdmitInv(raw, ts, ready, idx, upTo, carry, dropped, spent, q) && Busy(raw, idx) >= upTo
  {
    ready, idx := ready0, idx0;
    while idx < |raw| && ts[idx].arrival <= upTo
      invariant idx0 <= idx <= |raw| && ready == ready0 + Upto(idx0, idx)
      invariant forall i :: idx0 <= i < idx ==> raw[i].arrival <= upTo
    {
      UptoPush(ready0, idx0, idx);
      ready, idx := ready + [idx], idx + 1;
    }
    AdmitMany(raw, ts, ready0, idx0, idx, upTo, carry, dropped, spent, q);
  }

  /** Admitting everything up to `idx`. */
  lemma {:induction false} AdmitMany(raw: seq<Raw>, ts: seq<Task>, ready0: seq<nat>, idx0: nat, idx: nat, t: real,
                                     carry: real, dropped: real, spent: real, q: real)
    requires Admissible(raw, ts, ready0, idx0, t, carry, dropped, spent, q)
    requires NonnegativeBursts(raw) && carry >= 0.0
    requires idx0 <= idx <= |raw| && forall i :: idx0 <= i < idx ==> ts[i] == Fresh(raw[i]) && raw[i].arrival <= t
    ensures Admissible(raw, ts, ready0 + Upto(idx0, idx), idx, t, carry, dropped, spent, q)
    decreases idx - idx0
  {
    if idx == idx0 {
      assert ready0 + Upto(idx0, idx) == ready0;
    } else {
      AdmitOne(raw, ts, ready0, idx0, t, carry, dropped, spent, q);
      AdmitMany(raw, ts, ready0 + [idx0], idx0 + 1, idx, t, carry, dropped, spent, q);
      UptoFront(ready0, idx0, idx);
    }
  }

  /** What `admit` may rely on between two tasks. */
  ghost predicate Admissible(raw: seq<Raw>, ts: seq<Task>, ready: seq<nat>, idx: nat, t: real, carry: real,
                             dropped: real, spent: real, q: real)
  {
    AdmitInv(raw, ts, ready, idx, t, carry, dropped, spent, q) && Anchored(raw, idx, t) && Sum(Work, ts, ready) >= 0.0
  }

  lemma {:induction false} UptoFront(s: seq<nat>, a: nat, b: nat)
    requires a < b
    ensures s + [a] + Upto(a + 1, b) == s + Upto(a, b)
  {
  }

  /** The indices from `a` up to but not including `b`. */
  function Upto(a: nat, b: nat): (s: seq<nat>)
    requires a <= b
    ensures |s| == b - a && forall i :: 0 <= i < b - a ==> s[i] == a + i
  {
    if a == b then [] else Upto(a, b - 1) + [b - 1]
  }

  lemma {:induction false} UptoPush(s: seq<nat>, a: nat, b: nat)
    requires a <= b
    ensures s + Upto(a, b) + [b] == s + Upto(a, b + 1)
  {
  }

  lemma {:induction false} PlacedAdmit(ready: seq<nat>, finished: seq<nat>, idx: nat, next: nat)
    requires Placed(ready, finished, idx) && idx <= next
    ensures Placed(ready + Upto(idx, next), finished, next)
  {
    var a, b := ready + finished, ready + Upto(idx, next) + finished;
    forall i, j | 0 <= i < j < |b| ensures b[i] != b[j] {
      var n := next - idx;
      if i < |ready| {
        assert b[i] == a[i];
        if j >= |ready| + n { assert b[j] == a[j - n]; } else if j < |ready| { assert b[j] == a[j]; }
      } else if i >= |ready| + n {
        assert b[i] == a[i - n] && b[j] == a[j - n];
      } else if j >= |ready| + n {
        assert b[j] == finished[j - |ready| - n];
      }
    }
  }

  /** The clock stands still: nothing changes for what has been served or waits. */
  lemma {:induction false} AdmitKeeps(raw: seq<Raw>, ts: seq<Task>, ready: seq<nat>, finished: seq<nat>, idx: nat,
                                      t: real, next: nat)
    requires |ts| == |raw| && idx <= next <= |raw| && NonnegativeBursts(raw)
    requires Placed(ready, finished, idx) && TasksOk(raw, ts, ready, finished, idx, t)
    requires forall i :: idx <= i < next ==> raw[i].arrival <= t
    ensures Placed(ready + Upto(idx, next), finished, next)
    ensures TasksOk(raw, ts, ready + Upto(idx, next), finished, next, t)
  {
    PlacedAdmit(ready, finished, idx, next);
    var r := ready + Upto(idx, next);
    forall k | 0 <= k < |r| ensures Waiting(ts[r[k]], raw[r[k]], t) {
      if k < |ready| { assert Waiting(ts[ready[k]], raw[ready[k]], t); }
      else { assert ts[r[k]] == Fresh(raw[r[k]]); }
    }
  }

  /** Time passing keeps every record true. */
  lemma {:induction false} LaterOk(raw: seq<Raw>, ts: seq<Task>, ready: seq<nat>, finished: seq<nat>, idx: nat,
                                   t: real, u: real)
    requires |ts| == |raw| && idx <= |raw| && Indices(ready, idx) && Indices(finished, idx) && t <= u
    requires TasksOk(raw, ts, ready, finished, idx, t)
    ensures TasksOk(raw, ts, ready, finished, idx, u)
  {
    forall k | 0 <= k < |ready| ensures Waiting(ts[ready[k]], raw[ready[k]], u) {
      assert Waiting(ts[ready[k]], raw[ready[k]], t);
    }
    forall k | 0 <= k < |finished| ensures Finished(ts[finished[k]], raw[finished[k]], u) {
      assert Finished(ts[finished[k]], raw[finished[k]], t);
    }
  }

  /** An idle clock jumps to the next arrival. */
  lemma {:induction false} Jump(raw: seq<Raw>, ts: seq<Task>, finished: seq<nat>, idx: nat, t: real, rounds: nat, q: real)
    requires LoopInv(raw, ts, [], finished, idx, t, rounds, q) && idx < |raw| && raw[idx].arrival > t
    ensures AdmitInv(raw, ts, [], idx, raw[idx].arrival, 0.0, |finished| as real * EPSILON, rounds as real, q)
    ensures Anchored(raw, idx, raw[idx].arrival) && Sum(Work, ts, []) >= 0.0
  {
  }

  /** Task `i` after running for `s` from `t`. */
  function Ran(task: Task, t: real, s: real, vruntime: real): Task
  {
    task.(start := if task.start.None? then Some(t) else task.start,
          remaining := task.remaining - s, vruntime := vruntime)
  }

  /** The picked task leaves the queue and runs: its remainder is carried. */
  lemma {:induction false} Serve(raw: seq<Raw>, ts: seq<Task>, ready: seq<nat>, finished: seq<nat>, idx: nat, t: real,
                                 rounds: nat, q: real, k: nat, s: real, v: real)
    requires LoopInv(raw, ts, ready, finished, idx, t, rounds, q) && k < |ready|
    requires var x := ts[ready[k]].remaining; 0.0 <= s <= x && (s >= q || s == x)
    ensures var i := ready[k];
      var us, left := ts[i := Ran(ts[i], t, s, v)], ts[i].remaining - s;
      var turns := if left <= 0.0 then 0.0 else Rounds(left, q) as real;
      && AdmitInv(raw, us, Without(ready, k), idx, t + s, left, |finished| as real * EPSILON,
                  rounds as real + 1.0 + turns, q)
      && Busy(raw, idx) >= t + s && Sum(Work, us, Without(ready, k)) >= 0.0
  {
    var i, r := ready[k], Without(ready, k);
    var us, left := ts[i := Ran(ts[i], t, s, v)], ts[i].remaining - s;
    SumWithout(Work, ts, ready, k);
    SumWithout(Turns(q), ts, ready, k);
    Apart(ready, finished, k);
    SumFrame(Work, ts, us, r);
    SumFrame(Turns(q), ts, us, r);
    TurnsDrop(ts[i].remaining, s, q);
    forall j | 0 <= j < |r| ensures ts[r[j]].remaining >= 0.0 {
      var a := if j < k then j else j + 1;
      assert r[j] == ready[a] && Waiting(ts[ready[a]], raw[ready[a]], t);
    }
    SumNonNegative(ts, r);
  }

  /** The picked task occurs nowhere else. */
  lemma {:induction false} Apart(ready: seq<nat>, finished: seq<nat>, k: nat)
    requires NoRepeats(ready + finished) && k < |ready|
    ensures forall j :: 0 <= j < |Without(ready, k)| ==> Without(ready, k)[j] != ready[k]
    ensures forall j :: 0 <= j < |finished| ==> finished[j] != ready[k]
  {
    var a, r := ready + finished, Without(ready, k);
    forall j | 0 <= j < |r| ensures r[j] != ready[k] {
      var b := if j < k then j else j + 1;
      assert r[j] == a[b] && ready[k] == a[k];
    }
    forall j | 0 <= j < |finished| ensures finished[j] != ready[k] {
      assert finished[j] == a[|ready| + j] && ready[k] == a[k];
    }
  }

  /** Taking entry `k` out of the queue and giving it back, or to the finished, keeps the placement. */
  lemma {:induction false} PlacedMove(ready: seq<nat>, finished: seq<nat>, idx: nat, k: nat, extra: seq<nat>, next: nat)
    requires Placed(ready, finished, idx) && k < |ready| && idx <= next && extra == Upto(idx, next)
    ensures var r := Without(ready, k) + extra;
      Placed(r, finished + [ready[k]], next) && Placed(r + [ready[k]], finished, next)
  {
    var r, x := Without(ready, k) + extra, ready[k];
    PlacedAdmit(ready, finished, idx, next);
    var a := ready + extra + finished;
    assert NoRepeats(a);
    Permuted(a, r + finished + [x], |ready| + |extra|, k);
    assert r + (finished + [x]) == r + finished + [x];
    var c := r + [x] + finished;
    forall i, j | 0 <= i < j < |c| ensures c[i] != c[j] {
      var fi := Back(i, k, |ready| + |extra|);
      var fj := Back(j, k, |ready| + |extra|);
      assert c[i] == a[fi] && c[j] == a[fj] && fi != fj;
      assert a[fi] != a[fj] by { if fi < fj { assert a[fi] != a[fj]; } else { assert a[fj] != a[fi]; } }
    }
  }

  /** Where position `i` of "entry k moved to the end of the first m" came from. */
  function Back(i: nat, k: nat, m: nat): nat
    requires k < m
  {
    if i < k then i else if i < m - 1 then i + 1 else if i == m - 1 then k else i
  }

  lemma {:induction false} Permuted(a: seq<nat>, b: seq<nat>, m: nat, k: nat)
    requires NoRepeats(a) && k < m <= |a| && b == a[..k] + a[k + 1..] + [a[k]]
    ensures NoRepeats(b)
  {
    forall i, j | 0 <= i < j < |b| ensures b[i] != b[j] {
      var fi := Back(i, k, |a|);
      var fj := Back(j, k, |a|);
      assert b[i] == a[fi] && b[j] == a[fj] && fi != fj;
      assert a[fi] != a[fj] by { if fi < fj { assert a[fi] != a[fj]; } else { assert a[fj] != a[fi]; } }
    }
  }

  // ----- the loop

  datatype State = State(ts: seq<Task>, ready: seq<nat>, finished: seq<nat>, idx: nat, t: real, rounds: nat)

  ghost predicate Inv(raw: seq<Raw>, s: State, q: real)
  {
    LoopInv(raw, s.ts, s.ready, s.finished, s.idx, s.t, s.rounds, q)
  }

  /** The queue as the policy sees it. */
  function Queue(ts: seq<Task>, ready: seq<nat>): (r: seq<Task>)
    requires Indices(ready, |ts|)
    ensures |r| == |ready| && forall i :: 0 <= i < |ready| ==> r[i] == ts[ready[i]]
  {
    if ready == [] then []
    else
      assert Indices(ready[..|ready| - 1], |ts|);
      Queue(ts, ready[..|ready| - 1]) + [ts[ready[|ready| - 1]]]
  }

  // ----- what one turn of the main loop does, whoever schedules

  /** Exactly the tasks up to `next` have arrived by `t`. */
  ghost predicate Arrived(raw: seq<Raw>, idx: nat, next: nat, t: real)
  {
    && idx <= next <= |raw| && (forall i :: idx <= i < next ==> raw[i].arrival <= t)
    && (next < |raw| ==> raw[next].arrival > t)
  }

  /** Admission at the clock, and a jump to the next arrival if the queue is still empty. */
  ghost predicate Filled(raw: seq<Raw>, s: State, r: State)
  {
    && s.idx <= r.idx && r == s.(ready := s.ready + Upto(s.idx, r.idx), idx := r.idx, t := r.t)
    && Arrived(raw, s.idx, r.idx, r.t)
    && (r.t == s.t || (s.ready == [] && s.idx < |raw| && s.t < raw[s.idx].arrival == r.t))
  }

  /** The state after the picked task ran for its slice and the clock moved on to `now`. */
  function Settled(s: State, k: nat, task: Task, now: real, next: nat): State
    requires k < |s.ready| && s.ready[k] < |s.ts| && s.idx <= next
  {
    var i, ready := s.ready[k], Without(s.ready, k) + Upto(s.idx, next);
    if task.remaining <= EPSILON
    then State(s.ts[i := task.(end := Some(now))], ready, s.finished + [i], next, now, s.rounds + 1)
    else State(s.ts[i := task], ready + [i], s.finished, next, now, s.rounds + 1)
  }

  /** The policy's pick runs for the policy's slice, or for what is left of it. */
  ghost predicate Served(raw: seq<Raw>, p: Policy, s: State, r: State)
  {
    && Indices(s.ready, |s.ts|)
    && var k := p.pick(s.rounds, Queue(s.ts, s.ready), s.t);
       && k < |s.ready|
       && var task := s.ts[s.ready[k]];
          var slice := MinR(p.slice(s.rounds, task, |s.ready| - 1), task.remaining);
          && r.t == s.t + slice && Arrived(raw, s.idx, r.idx, r.t)
          && r == Settled(s, k, Ran(task, s.t, slice, p.update(s.rounds, task, slice)), r.t, r.idx)
  }

  ghost predicate Turn(raw: seq<Raw>, p: Policy, s: State, r: State)
  {
    exists m :: Filled(raw, s, m) && Served(raw, p, m, r)
  }

  /** The states of a run, from one turn to the next. */
  ghost predicate Trail(raw: seq<Raw>, p: Policy, trail: seq<State>)
  {
    && trail != [] && |trail[0].ts| == |raw| && (forall i :: 0 <= i < |raw| ==> trail[0].ts[i] == Fresh(raw[i]))
    && trail[0] == State(trail[0].ts, [], [], 0, 0.0, 0)
    && forall i, j :: 0 <= i && j == i + 1 && j < |trail| ==> Turn(raw, p, trail[i], trail[j])
  }

  /** Admits what has arrived by the clock. */
  method AdmitNow(raw: seq<Raw>, s: State, ghost q: real) returns (r: State)
    requires Inv(raw, s, q) && NonnegativeBursts(raw)
    ensures Inv(raw, r, q) && s.idx <= r.idx && r == s.(ready := s.ready + Upto(s.idx, r.idx), idx := r.idx)
    ensures Arrived(raw, s.idx, r.idx, s.t)
  {
    ReadyWork(raw, s.ts, s.ready, s.finished, s.idx, s.t);
    var ready, idx := Admit(raw, s.ts, s.ready, s.idx, s.t, 0.0, |s.finished| as real * EPSILON, s.rounds as real, q);
    AdmitKeeps(raw, s.ts, s.ready, s.finished, s.idx, s.t, idx);
    r := s.(ready := ready, idx := idx);
  }

  /** The idle branch: the clock jumps to the next arrival, which is then admitted. */
  method JumpAhead(raw: seq<Raw>, s: State, ghost q: real) returns (r: State)
    requires Inv(raw, s, q) && NonnegativeBursts(raw) && s.ready == [] && s.idx < |raw| && raw[s.idx].arrival > s.t
    ensures Inv(raw, r, q) && r.ready != [] && r.finished == s.finished && r.rounds == s.rounds
    ensures Filled(raw, s, r) && r.t == raw[s.idx].arrival
  {
    Jump(raw, s.ts, s.finished, s.idx, s.t, s.rounds, q);
    var now := s.ts[s.idx].arrival;
    LaterOk(raw, s.ts, [], s.finished, s.idx, s.t, now);
    var ready, idx := Admit(raw, s.ts, [], s.idx, now, 0.0, |s.finished| as real * EPSILON, s.rounds as real, q);
    AdmitKeeps(raw, s.ts, [], s.finished, s.idx, now, idx);
    r := State(s.ts, ready, s.finished, idx, now, s.rounds);
  }

  /** A queue that is never empty while tasks are left. */
  method Fill(raw: seq<Raw>, s: State, ghost q: real) returns (r: State)
    requires Inv(raw, s, q) && NonnegativeBursts(raw) && |s.finished| < |raw|
    ensures Inv(raw, r, q) && r.ready != [] && r.finished == s.finished && r.rounds == s.rounds
    ensures Filled(raw, s, r)
  {
    var a := AdmitNow(raw, s, q);
    r := a;
    if a.ready == [] {
      assert a == s;
      r := JumpAhead(raw, a, q);
    }
  }

  function MinR(a: real, b: real): real { if b < a then b else a }

  /** What happens to the records when task `i` of the queue has run and others were admitted. */
  lemma {:induction false} Settle(raw: seq<Raw>, s: State, k: nat, u: real, task: Task, next: nat)
    requires |s.ts| == |raw| && s.idx <= next <= |raw| && k < |s.ready| && Placed(s.ready, s.finished, s.idx)
    requires TasksOk(raw, s.ts, s.ready, s.finished, s.idx, s.t) && s.t <= u && NonnegativeBursts(raw)
    requires forall j :: s.idx <= j < next ==> raw[j].arrival <= u
    ensures var i, r := s.ready[k], Without(s.ready, k) + Upto(s.idx, next);
      var us := s.ts[i := task];
      && Indices(r, next) && Indices(r + [i], next) && Indices(s.finished, next)
      && Indices(s.finished + [i], next)
      && (Finished(task, raw[i], u) ==> TasksOk(raw, us, r, s.finished + [i], next, u))
      && (Waiting(task, raw[i], u) ==> TasksOk(raw, us, r + [i], s.finished, next, u))
  {
    var i, r := s.ready[k], Without(s.ready, k) + Upto(s.idx, next);
    var us := s.ts[i := task];
    PlacedMove(s.ready, s.finished, s.idx, k, Upto(s.idx, next), next);
    Apart(s.ready, s.finished, k);
    forall j | 0 <= j < |r| ensures Waiting(us[r[j]], raw[r[j]], u) {
      if j < |Without(s.ready, k)| {
        var a := if j < k then j else j + 1;
        assert r[j] == s.ready[a] == Without(s.ready, k)[j] && Waiting(s.ts[s.ready[a]], raw[s.ready[a]], s.t);
      } else {
        assert s.idx <= r[j] < next && s.ts[r[j]] == Fresh(raw[r[j]]);
      }
    }
    forall j | 0 <= j < |s.finished| ensures Finished(us[s.finished[j]], raw[s.finished[j]], u) {
      assert Finished(s.ts[s.finished[j]], raw[s.finished[j]], s.t);
    }
  }

  /** Finishing drops at most EPSILON of work from the balance. */
  lemma {:induction false} Drop(raw: seq<Raw>, us: seq<Task>, vs: seq<Task>, ready: seq<nat>, idx: nat, t: real,
                                carry: real, f: nat, spent: real, turns: real, q: real)
    requires AdmitInv(raw, us, ready, idx, t, carry, f as real * EPSILON, spent + turns, q)
    requires |vs| == |us| && forall i :: 0 <= i < |us| ==> vs[i].remaining == us[i].remaining
    requires 0.0 <= carry <= EPSILON && turns >= 0.0
    ensures AdmitInv(raw, vs, ready, idx, t, 0.0, (f + 1) as real * EPSILON, spent, q)
  {
    SumFrame(Work, us, vs, ready);
    SumFrame(Turns(q), us, vs, ready);
  }

  /** One round: pick, run a slice, admit, and requeue or finish what ran. */
  method Round(raw: seq<Raw>, p: Policy, s: State, ghost q: real) returns (r: State)
    requires Inv(raw, s, q) && NonnegativeBursts(raw) && ValidPolicy(p, q) && s.ready != []
    ensures Inv(raw, r, q) && r.rounds == s.rounds + 1 && Served(raw, p, s, r)
  {
    var k := p.pick(s.rounds, Queue(s.ts, s.ready), s.t);
    var i := s.ready[k];
    assert Waiting(s.ts[i], raw[i], s.t);
    var slice := MinR(p.slice(s.rounds, s.ts[i], |s.ready| - 1), s.ts[i].remaining);
    var v := p.update(s.rounds, s.ts[i], slice);
    r := Conclude(raw, s, k, slice, v, q);
  }

  /** The second half of a round. */
  method Conclude(raw: seq<Raw>, s: State, k: nat, slice: real, v: real, ghost q: real) returns (r: State)
    requires Inv(raw, s, q) && NonnegativeBursts(raw) && k < |s.ready|
    requires var x := s.ts[s.ready[k]].remaining; 0.0 <= slice <= x && (slice >= q || slice == x)
    ensures Inv(raw, r, q) && r.rounds == s.rounds + 1 && r.t == s.t + slice && Arrived(raw, s.idx, r.idx, r.t)
    ensures r == Settled(s, k, Ran(s.ts[s.ready[k]], s.t, slice, v), r.t, r.idx)
  {
    var i, now := s.ready[k], s.t + slice;
    var task := Ran(s.ts[i], s.t, slice, v);
    var ready, idx := AdmitAfter(raw, s, k, slice, v, task, now, q);
    ConcludeInv(raw, s, k, slice, v, task, now, idx, q);
    r := Put(s, k, task, now, ready, idx);
  }

  /** Rounds the carried remainder may still need. */
  ghost function Left(task: Task, q: real): real
    requires q > 0.0
  {
    if task.remaining <= 0.0 then 0.0 else Rounds(task.remaining, q) as real
  }

  ghost predicate Carried(raw: seq<Raw>, s: State, k: nat, task: Task, now: real, idx: nat, q: real)
    requires k < |s.ready| && s.ready[k] < |s.ts| && s.idx <= idx && q > 0.0
  {
    && AdmitInv(raw, s.ts[s.ready[k] := task], Without(s.ready, k) + Upto(s.idx, idx), idx, now, task.remaining,
                |s.finished| as real * EPSILON, s.rounds as real + 1.0 + Left(task, q), q)
    && Busy(raw, idx) >= now
  }

  /** The admission after the slice. */
  method AdmitAfter(raw: seq<Raw>, s: State, k: nat, slice: real, v: real, task: Task, now: real, ghost q: real)
    returns (ready: seq<nat>, idx: nat)
    requires Inv(raw, s, q) && NonnegativeBursts(raw) && k < |s.ready| && now == s.t + slice
    requires var x := s.ts[s.ready[k]].remaining; 0.0 <= slice <= x && (slice >= q || slice == x)
    requires task == Ran(s.ts[s.ready[k]], s.t, slice, v)
    ensures Arrived(raw, s.idx, idx, now) && ready == Without(s.ready, k) + Upto(s.idx, idx)
    ensures Carried(raw, s, k, task, now, idx, q)
  {
    var i := s.ready[k];
    assert Waiting(s.ts[i], raw[i], s.t);
    Serve(raw, s.ts, s.ready, s.finished, s.idx, s.t, s.rounds, q, k, slice, v);
    RoundsPositive(task.remaining, q);
    ready, idx := Admit(raw, s.ts[i := task], Without(s.ready, k), s.idx, now, task.remaining,
                        |s.finished| as real * EPSILON, s.rounds as real + 1.0 + Left(task, q), q);
  }

  lemma {:induction false} ConcludeInv(raw: seq<Raw>, s: State, k: nat, slice: real, v: real, task: Task, now: real,
                                       idx: nat, q: real)
    requires Inv(raw, s, q) && NonnegativeBursts(raw) && k < |s.ready|
    requires 0.0 <= slice <= s.ts[s.ready[k]].remaining && now == s.t + slice
    requires task == Ran(s.ts[s.ready[k]], s.t, slice, v)
    requires Arrived(raw, s.idx, idx, now) && Carried(raw, s, k, task, now, idx, q)
    ensures Inv(raw, Settled(s, k, task, now, idx), q)
  {
    RanOk(raw, s, k, slice, v, q);
    if task.remaining <= EPSILON {
      Finishes(raw, s, k, task, idx, now, q);
    } else {
      Requeues(raw, s, k, task, idx, now, q);
    }
  }

  /** The record of a task that has run is in order, done or not. */
  lemma {:induction false} RanOk(raw: seq<Raw>, s: State, k: nat, slice: real, v: real, q: real)
    requires Inv(raw, s, q) && k < |s.ready| && 0.0 <= slice <= s.ts[s.ready[k]].remaining
    ensures var task, now := Ran(s.ts[s.ready[k]], s.t, slice, v), s.t + slice;
      if task.remaining <= EPSILON then Finished(task.(end := Some(now)), raw[s.ready[k]], now)
      else Waiting(task, raw[s.ready[k]], now)
  {
    assert Waiting(s.ts[s.ready[k]], raw[s.ready[k]], s.t);
  }

  /** What has run goes to the finished ones or back into the queue. */
  method Put(s: State, k: nat, task: Task, now: real, ready: seq<nat>, idx: nat) returns (r: State)
    requires k < |s.ready| && s.ready[k] < |s.ts| && s.idx <= idx
    requires ready == Without(s.ready, k) + Upto(s.idx, idx)
    ensures r == Settled(s, k, task, now, idx)
  {
    var i := s.ready[k];
    if task.remaining <= EPSILON {
      r := State(s.ts[i := task.(end := Some(now))], ready, s.finished + [i], idx, now, s.rounds + 1);
    } else {
      r := State(s.ts[i := task], ready + [i], s.finished, idx, now, s.rounds + 1);
    }
  }

  lemma {:induction false} Finishes(raw: seq<Raw>, s: State, k: nat, task: Task, idx: nat, now: real, q: real)
    requires Inv(raw, s, q) && NonnegativeBursts(raw) && k < |s.ready| && s.t <= now
    requires Arrived(raw, s.idx, idx, now) && Carried(raw, s, k, task, now, idx, q)
    requires 0.0 <= task.remaining <= EPSILON && Finished(task.(end := Some(now)), raw[s.ready[k]], now)
    ensures Inv(raw, Settled(s, k, task, now, idx), q)
  {
    var i, ready, done := s.ready[k], Without(s.ready, k) + Upto(s.idx, idx), task.(end := Some(now));
    RoundsPositive(task.remaining, q);
    PlacedMove(s.ready, s.finished, s.idx, k, Upto(s.idx, idx), idx);
    Settle(raw, s, k, now, done, idx);
    Drop(raw, s.ts[i := task], s.ts[i := done], ready, idx, now, task.remaining, |s.finished|,
         s.rounds as real + 1.0, Left(task, q), q);
  }

  lemma {:induction false} Requeues(raw: seq<Raw>, s: State, k: nat, task: Task, idx: nat, now: real, q: real)
    requires Inv(raw, s, q) && NonnegativeBursts(raw) && k < |s.ready| && s.t <= now
    requires Arrived(raw, s.idx, idx, now) && Carried(raw, s, k, task, now, idx, q)
    requires task.remaining > EPSILON && Waiting(task, raw[s.ready[k]], now)
    ensures Inv(raw, Settled(s, k, task, now, idx), q)
  {
    var i, ready := s.ready[k], Without(s.ready, k) + Upto(s.idx, idx);
    PlacedMove(s.ready, s.finished, s.idx, k, Upto(s.idx, idx), idx);
    Settle(raw, s, k, now, task, idx);
    SumAppend(Work, s.ts[i := task], ready, i);
    SumAppend(Turns(q), s.ts[i := task], ready, i);
  }

  /** `Scheduler.run` for any policy whose slices are at least `q`: its states follow the policy turn
      by turn (`trail`), every task is served exactly once and starts no earlier than it arrived, the
      number of rounds is what the slices allow, and the final clock trails the ideal server by at most
      EPSILON per task. */
  method Run(raw: seq<Raw>, p: Policy, ghost q: real)
    returns (ts: seq<Task>, finished: seq<nat>, t: real, rounds: nat, ghost trail: seq<State>)
    requires NonnegativeBursts(raw) && ValidPolicy(p, q)
    ensures Trail(raw, p, trail) && |trail| == rounds + 1
    ensures var s := trail[rounds]; ts == s.ts && finished == s.finished && t == s.t
    ensures |ts| == |raw| == |finished| && NoRepeats(finished) && Indices(finished, |raw|)
    ensures forall k :: 0 <= k < |finished| ==> Finished(ts[finished[k]], raw[finished[k]], t)
    ensures rounds as real <= Future(raw, 0, q)
    ensures Busy(raw, |raw|) - |raw| as real * EPSILON <= t <= Busy(raw, |raw|)
  {
    var s := State(seq(|raw|, i requires 0 <= i < |raw| => Fresh(raw[i])), [], [], 0, 0.0, 0);
    Opening(raw, s, q);
    trail := [s];
    while |s.finished| < |raw|
      invariant Inv(raw, s, q)
      invariant Trail(raw, p, trail) && |trail| == s.rounds + 1 && trail[s.rounds] == s
      decreases Future(raw, 0, q).Floor - s.rounds
    {
      var m := Fill(raw, s, q);
      RoundsLeft(raw, m, q);
      var r := Round(raw, p, m, q);
      TrailPush(raw, p, trail, m, r);
      trail, s := trail + [r], r;
    }
    Closing(raw, s, q);
    ts, finished, t, rounds := s.ts, s.finished, s.t, s.rounds;
  }

  lemma {:induction false} TrailPush(raw: seq<Raw>, p: Policy, trail: seq<State>, m: State, r: State)
    requires Trail(raw, p, trail) && Filled(raw, trail[|trail| - 1], m) && Served(raw, p, m, r)
    ensures Trail(raw, p, trail + [r])
  {
    assert Turn(raw, p, trail[|trail| - 1], r);
  }

  lemma {:induction false} Opening(raw: seq<Raw>, s: State, q: real)
    requires q > 0.0 && |s.ts| == |raw| && forall i :: 0 <= i < |raw| ==> s.ts[i] == Fresh(raw[i])
    requires s == State(s.ts, [], [], 0, 0.0, 0)
    ensures Inv(raw, s, q)
  {
  }

  /** While something waits, the rounds are not used up. */
  lemma {:induction false} RoundsLeft(raw: seq<Raw>, s: State, q: real)
    requires Inv(raw, s, q) && s.ready != [] && NonnegativeBursts(raw)
    ensures s.rounds < Future(raw, 0, q).Floor
  {
    var k := |s.ready| - 1;
    SumWithout(Turns(q), s.ts, s.ready, k);
    assert Waiting(s.ts[s.ready[k]], raw[s.ready[k]], s.t);
    RoundsPositive(s.ts[s.ready[k]].remaining, q);
    forall j | 0 <= j < |Without(s.ready, k)| ensures s.ts[Without(s.ready, k)[j]].remaining >= 0.0 {
      assert Without(s.ready, k)[j] == s.ready[j] && Waiting(s.ts[s.ready[j]], raw[s.ready[j]], s.t);
    }
    TurnsPositive(s.ts, Without(s.ready, k), q);
    FuturePositive(raw, s.idx, q);
  }

  lemma {:induction false} TurnsPositive(ts: seq<Task>, ready: seq<nat>, q: real)
    requires q > 0.0 && Indices(ready, |ts|) && forall j :: 0 <= j < |ready| ==> ts[ready[j]].remaining >= 0.0
    ensures Sum(Turns(q), ts, ready) >= 0.0
  {
    if ready != [] {
      TurnsPositive(ts, ready[..|ready| - 1], q);
      RoundsPositive(ts[ready[|ready| - 1]].remaining, q);
    }
  }

  lemma {:induction false} FuturePositive(raw: seq<Raw>, idx: nat, q: real)
    requires q > 0.0 && idx <= |raw| && NonnegativeBursts(raw)
    ensures Future(raw, idx, q) >= 0.0
    decreases |raw| - idx
  {
    if idx < |raw| {
      FuturePositive(raw, idx + 1, q);
      RoundsPositive(raw[idx].burst, q);
    }
  }

  lemma {:induction false} Closing(raw: seq<Raw>, s: State, q: real)
    requires Inv(raw, s, q) && |s.finished| >= |raw|
    ensures |s.finished| == |raw| && s.ready == [] && NoRepeats(s.finished)
    ensures s.rounds as real <= Future(raw, 0, q)
    ensures Busy(raw, |raw|) - |raw| as real * EPSILON <= s.t <= Busy(raw, |raw|)
  {
    assert s.ready + s.finished == s.finished;
  }

  /** All policies share one makespan, up to the work dropped at the end of each task. */
  method Compare(raw: seq<Raw>, a: Policy, b: Policy, ghost q: real, ghost r: real) returns (gap: real)
    requires NonnegativeBursts(raw) && ValidPolicy(a, q) && ValidPolicy(b, r)
    ensures -(|raw| as real * EPSILON) <= gap <= |raw| as real * EPSILON
  {
    var _, _, t, _, _ := Run(raw, a, q);
    var _, _, u, _, _ := Run(raw, b, r);
    gap := t - u;
  }

  // ----- the policies of the simulator

  /** Round robin: the head of the queue, a fixed quantum. */
  function RoundRobin(quantum: real): Policy
  {
    Policy((n: nat, ready: seq<Task>, now: real) => 0,
           (n: nat, task: Task, others: nat) => quantum, (n: nat, task: Task, s: real) => task.vruntime)
  }

  /** Round robin with a learned choice: any queued task may come out. */
  function Learned(quantum: real, choice: (nat, seq<Task>) -> nat): Policy
  {
    Policy((n: nat, ready: seq<Task>, now: real) => if |ready| == 0 then 0 else choice(n, ready) % |ready|,
           (n: nat, task: Task, others: nat) => quantum, (n: nat, task: Task, s: real) => task.vruntime)
  }

  /** The first task of least virtual runtime. */
  function LeastRuntime(ready: seq<Task>): (k: nat)
    ensures ready != [] ==> k < |ready|
    ensures forall i :: 0 <= i < |ready| ==> ready[k].vruntime <= ready[i].vruntime
    ensures forall i :: 0 <= i < k && i < |ready| ==> ready[k].vruntime < ready[i].vruntime
  {
    if |ready| <= 1 then 0
    else
      var n := |ready| - 1;
      var k := LeastRuntime(ready[..n]);
      assert forall i :: 0 <= i < n ==> ready[..n][i] == ready[i];
      if ready[n].vruntime < ready[k].vruntime then n else k
  }

  function CfsSlice(target: real, minGran: real, others: nat): (s: real)
    ensures s >= minGran
  {
    MaxR(minGran, target / (others + 1) as real)
  }

  function Cfs(target: real, minGran: real): Policy
  {
    Policy((n: nat, ready: seq<Task>, now: real) => LeastRuntime(ready),
           (n: nat, task: Task, others: nat) => CfsSlice(target, minGran, others),
           (n: nat, task: Task, s: real) => if task.weight == 0.0 then task.vruntime else task.vruntime + s / task.weight)
  }

  /** Each of the three is an admissible policy, so all the above holds of it. */
  lemma {:induction false} PoliciesValid(quantum: real, target: real, minGran: real, choice: (nat, seq<Task>) -> nat)
    requires quantum > 0.0 && minGran > 0.0
    ensures ValidPolicy(RoundRobin(quantum), quantum)
    ensures ValidPolicy(Learned(quantum, choice), quantum)
    ensures ValidPolicy(Cfs(target, minGran), minGran)
  {
  }
}
