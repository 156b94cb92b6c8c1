/** The page-replacement simulators of memory/lru-ml-sim.py as functions of the request trace.
    A cache is the simulator's own list; `k` is its capacity. */
module CacheModel {
  type Page = int

  /** The list without the first occurrence of `p` (`deque.remove`). */
  function Remove(c: seq<Page>, p: Page): seq<Page>
  {
    if c == [] then [] else if c[0] == p then c[1..] else [c[0]] + Remove(c[1..], p)
  }

  /** Makes room by dropping the left end of a full cache. */
  function DropOldest(c: seq<Page>, k: nat): seq<Page>
  {
    if |c| == k && c != [] then c[1..] else c
  }

  function LruStep(c: seq<Page>, p: Page, k: nat): seq<Page>
  {
    if p in c then Remove(c, p) + [p] else DropOldest(c, k) + [p]
  }

  function FifoStep(c: seq<Page>, p: Page, k: nat): seq<Page>
  {
    if p in c then c else DropOldest(c, k) + [p]
  }

  /** Random and learned replacement: the victim's slot is whatever the oracle says. */
  function OracleStep(c: seq<Page>, p: Page, k: nat, victim: nat): seq<Page>
  {
    if p in c then c
    else if |c| == k then if victim < |c| then c[victim := p] else c
    else c + [p]
  }

  function Lru(trace: seq<Page>, k: nat): seq<Page>
  {
    if trace == [] then [] else LruStep(Lru(trace[..|trace| - 1], k), trace[|trace| - 1], k)
  }

  function Fifo(trace: seq<Page>, k: nat): seq<Page>
  {
    if trace == [] then [] else FifoStep(Fifo(trace[..|trace| - 1], k), trace[|trace| - 1], k)
  }

  function Oracle(trace: seq<Page>, k: nat, victims: seq<nat>): seq<Page>
    requires |victims| == |trace|
  {
    if trace == [] then []
    else
      var n := |trace| - 1;
      OracleStep(Oracle(trace[..n], k, victims[..n]), trace[n], k, victims[n])
  }

  function Miss(c: seq<Page>, p: Page): nat { if p in c then 0 else 1 }

  function LruMisses(trace: seq<Page>, k: nat): nat
  {
    if trace == [] then 0
    else var t := trace[..|trace| - 1]; LruMisses(t, k) + Miss(Lru(t, k), trace[|trace| - 1])
  }

  function FifoMisses(trace: seq<Page>, k: nat): nat
  {
    if trace == [] then 0
    else var t := trace[..|trace| - 1]; FifoMisses(t, k) + Miss(Fifo(t, k), trace[|trace| - 1])
  }

  function OracleMisses(trace: seq<Page>, k: nat, victims: seq<nat>): nat
    requires |victims| == |trace|
  {
    if trace == [] then 0
    else
      var n := |trace| - 1;
      OracleMisses(trace[..n], k, victims[..n]) + Miss(Oracle(trace[..n], k, victims[..n]), trace[n])
  }

  predicate ValidVictims(victims: seq<nat>, k: nat) { forall i :: 0 <= i < |victims| ==> victims[i] < k }

  // ----- lists without repetition

  ghost predicate Distinct(c: seq<Page>) { forall i, j :: 0 <= i < j < |c| ==> c[i] != c[j] }

  ghost function Pages(c: seq<Page>): set<Page> { set p | p in c }

  lemma {:induction false} PagesConcat(a: seq<Page>, b: seq<Page>)
    ensures Pages(a + b) == Pages(a) + Pages(b)
  {
    forall p ensures p in Pages(a + b) <==> p in Pages(a) + Pages(b) {
      assert p in a + b <==> p in a || p in b;
    }
  }

  lemma {:induction false} DistinctSize(c: seq<Page>)
    requires Distinct(c)
    ensures |Pages(c)| == |c|
  {
    if c == [] {
      assert Pages(c) == {};
    } else {
      var d, p := c[..|c| - 1], c[|c| - 1];
      DistinctSize(d);
      assert Pages(c) == Pages(d) + {p};
      assert p !in Pages(d);
    }
  }

  lemma {:induction false} RemoveMember(c: seq<Page>, p: Page)
    requires Distinct(c)
    ensures Distinct(Remove(c, p))
    ensures forall q :: q in Remove(c, p) <==> q in c && q != p
    ensures |Remove(c, p)| == if p in c then |c| - 1 else |c|
  {
    if c != [] {
      assert Distinct(c[1..]);
      RemoveMember(c[1..], p);
      if c[0] != p {
        var d := [c[0]] + Remove(c[1..], p);
        assert c[0] !in c[1..];
      }
    }
  }

  /** Removing `p` splits the list at its place. */
  lemma {:induction false} RemoveAt(c: seq<Page>, i: nat)
    requires Distinct(c) && i < |c|
    ensures Remove(c, c[i]) == c[..i] + c[i + 1..]
  {
    if i > 0 {
      assert Distinct(c[1..]);
      RemoveAt(c[1..], i - 1);
      assert c[1..][..i - 1] == c[1..i] && c[1..][i..] == c[i + 1..];
      assert c[0] != c[i];
    }
  }

  lemma {:induction false} LruDistinct(trace: seq<Page>, k: nat)
    requires k >= 1
    ensures Distinct(Lru(trace, k)) && |Lru(trace, k)| <= k
    ensures trace != [] ==> trace[|trace| - 1] in Lru(trace, k)
  {
    if trace != [] {
      var t, p := trace[..|trace| - 1], trace[|trace| - 1];
      LruDistinct(t, k);
      RemoveMember(Lru(t, k), p);
    }
  }

  lemma {:induction false} FifoDistinct(trace: seq<Page>, k: nat)
    requires k >= 1
    ensures Distinct(Fifo(trace, k)) && |Fifo(trace, k)| <= k
  {
    if trace != [] { FifoDistinct(trace[..|trace| - 1], k); }
  }

  lemma {:induction false} OracleDistinct(trace: seq<Page>, k: nat, victims: seq<nat>)
    requires k >= 1 && |victims| == |trace| && ValidVictims(victims, k)
    ensures Distinct(Oracle(trace, k, victims)) && |Oracle(trace, k, victims)| <= k
    ensures trace != [] ==> trace[|trace| - 1] in Oracle(trace, k, victims)
  {
    if trace != [] {
      var n := |trace| - 1;
      OracleDistinct(trace[..n], k, victims[..n]);
      var c, p, v := Oracle(trace[..n], k, victims[..n]), trace[n], victims[n];
      if p !in c && |c| == k { assert c[v := p][v] == p; }
    }
  }

  /** Index of the last request of `p`. */
  function LastUse(trace: seq<Page>, p: Page): (i: int)
    ensures -1 <= i < |trace|
    ensures i == -1 <==> p !in trace
    ensures i >= 0 ==> trace[i] == p && forall j :: i < j < |trace| ==> trace[j] != p
  {
    if trace == [] then -1
    else if trace[|trace| - 1] == p then |trace| - 1
    else
      assert trace == trace[..|trace| - 1] + [trace[|trace| - 1]];
      LastUse(trace[..|trace| - 1], p)
  }
}
