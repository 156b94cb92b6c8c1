/** Competitiveness: LRU and FIFO miss at most `k` times as often as the random or the learned
    simulator, whatever victims those choose, on every trace. */
module CacheCompetitive {
  import opened CacheModel

  // ----- phases: maximal stretches of the trace with at most k distinct pages

  /** Phase number and the pages requested in the current phase. */
  datatype Phase = Phase(number: nat, marked: set<Page>)

  function PhaseStep(h: Phase, p: Page, k: nat): Phase
  {
    if h.number == 0 then Phase(1, {p})
    else if p in h.marked then h
    else if |h.marked| < k then Phase(h.number, h.marked + {p})
    else Phase(h.number + 1, {p})
  }

  function Phases(trace: seq<Page>, k: nat): Phase
  {
    if trace == [] then Phase(0, {}) else PhaseStep(Phases(trace[..|trace| - 1], k), trace[|trace| - 1], k)
  }

  lemma {:induction false} PhaseSize(trace: seq<Page>, k: nat)
    requires k >= 1
    ensures |Phases(trace, k).marked| <= k
    ensures trace == [] <==> Phases(trace, k).number == 0
    ensures trace != [] ==> |Phases(trace, k).marked| >= 1
  {
    if trace != [] { PhaseSize(trace[..|trace| - 1], k); }
  }

  // ----- any demand-paging simulator misses at least once per phase

  /** One miss per phase, and one more unless the whole phase so far is still cached. */
  ghost predicate PaidPerPhase(c: seq<Page>, misses: nat, h: Phase)
  {
    misses >= h.number && (misses == h.number ==> h.marked <= Pages(c))
  }

  lemma {:induction false} OraclePaysStep(c: seq<Page>, misses: nat, h: Phase, p: Page, k: nat, v: nat)
    requires k >= 1 && Distinct(c) && |c| <= k && v < k && |h.marked| <= k
    requires h.number >= 1 && PaidPerPhase(c, misses, h)
    ensures PaidPerPhase(OracleStep(c, p, k, v), misses + Miss(c, p), PhaseStep(h, p, k))
  {
    DistinctSize(c);
    var d := OracleStep(c, p, k, v);
    if p !in h.marked && |h.marked| == k {
      if misses == h.number {
        FullSubset(h.marked, Pages(c));
      }
      if p !in c && |c| == k { assert d[v] == p; }
      assert p in d;
    }
  }

  lemma {:induction false} FullSubset(a: set<Page>, b: set<Page>)
    requires a <= b && |b| <= |a|
    ensures a == b
  {
    assert b == a + (b - a);
    assert |b| == |a| + |b - a|;
  }

  lemma {:induction false} SubsetSize(a: set<Page>, b: set<Page>)
    requires a <= b
    ensures |a| <= |b|
  {
    assert b == a + (b - a);
  }

  lemma {:induction false} OraclePays(trace: seq<Page>, k: nat, victims: seq<nat>)
    requires k >= 1 && |victims| == |trace| && ValidVictims(victims, k)
    ensures PaidPerPhase(Oracle(trace, k, victims), OracleMisses(trace, k, victims), Phases(trace, k))
  {
    if trace != [] {
      var n := |trace| - 1;
      var t, w := trace[..n], victims[..n];
      OraclePays(t, k, w);
      OracleDistinct(t, k, w);
      PhaseSize(t, k);
      if t != [] {
        OraclePaysStep(Oracle(t, k, w), OracleMisses(t, k, w), Phases(t, k), trace[n], k, victims[n]);
      } else {
        assert Oracle(t, k, w) == [];
      }
    }
  }

  // ----- LRU misses at most k times per phase

  /** What `k` misses per finished phase and `rest` in the current one allow. */
  function Allowance(number: nat, rest: nat, k: nat): int { k * (number - 1) + rest }

  lemma {:induction false} AllowanceNext(number: nat, k: nat)
    ensures Allowance(number + 1, 0, k) == Allowance(number, k, k) == k * number
  {
  }

  lemma {:induction false} AllowanceStep(h: Phase, p: Page, k: nat)
    requires h.number >= 1 && |h.marked| <= k
    ensures var g := PhaseStep(h, p, k);
      Allowance(g.number, |g.marked|, k) == Allowance(h.number, |h.marked|, k) + if p in h.marked then 0 else 1
  {
    AllowanceNext(h.number, k);
  }

  /** The pages of the phase are the most recent entries of the cache. */
  ghost predicate Recent(c: seq<Page>, marked: set<Page>)
  {
    |marked| <= |c| && Pages(c[|c| - |marked|..]) == marked
  }

  /** Moving an entry of the last `s` to the end keeps the set of the last `s`. */
  lemma {:induction false} SuffixMove(c: seq<Page>, s: nat, i: nat)
    requires s <= |c| && |c| - s <= i < |c|
    ensures Pages((c[..i] + c[i + 1..] + [c[i]])[|c| - s..]) == Pages(c[|c| - s..])
  {
    var x, y, p := c[|c| - s..i], c[i + 1..], [c[i]];
    assert (c[..i] + y + p)[|c| - s..] == x + y + p;
    assert c[|c| - s..] == x + p + y;
    PagesConcat(x + y, p);
    PagesConcat(x, y);
    PagesConcat(x + p, y);
    PagesConcat(x, p);
  }

  /** Dropping an entry before the last `s` keeps them. */
  lemma {:induction false} SuffixKeep(c: seq<Page>, s: nat, i: nat)
    requires s <= |c| && i < |c| - s
    ensures (c[..i] + c[i + 1..])[|c| - 1 - s..] == c[|c| - s..]
  {
  }

  /** A hit in the recent part of the list only reorders it. */
  lemma {:induction false} LruStays(c: seq<Page>, k: nat, s: nat, i: nat)
    requires Distinct(c) && |c| <= k && s <= |c| && |c| - s <= i < |c|
    ensures var d := LruStep(c, c[i], k); |d| == |c| && Pages(d[|d| - s..]) == Pages(c[|c| - s..])
  {
    RemoveAt(c, i);
    SuffixMove(c, s, i);
  }

  lemma {:induction false} SuffixAppend(c: seq<Page>, s: nat, p: Page)
    requires s <= |c|
    ensures (c + [p])[|c| - s..] == c[|c| - s..] + [p]
  {
  }

  /** A page from outside the recent part joins it. */
  lemma {:induction false} LruGrows(c: seq<Page>, p: Page, k: nat, s: nat)
    requires k >= 1 && Distinct(c) && |c| <= k && s <= |c| && s < k
    requires p !in c[|c| - s..]
    ensures var d := LruStep(c, p, k); s + 1 <= |d| && d[|d| - s - 1..] == c[|c| - s..] + [p]
  {
    if p in c {
      var i := Position(c, p, s);
      RemoveAt(c, i);
      SuffixKeep(c, s, i);
      SuffixAppend(c[..i] + c[i + 1..], s, p);
    } else {
      SuffixAppend(DropOldest(c, k), s, p);
    }
  }

  lemma {:induction false} Position(c: seq<Page>, p: Page, s: nat) returns (i: nat)
    requires p in c && s <= |c| && p !in c[|c| - s..]
    ensures i < |c| - s && c[i] == p
  {
    assert c == c[..|c| - s] + c[|c| - s..];
    assert p in c[..|c| - s];
    i :| 0 <= i < |c| - s && c[..|c| - s][i] == p;
  }

  lemma {:induction false} LruMarkedHit(c: seq<Page>, marked: set<Page>, p: Page, k: nat)
    requires Distinct(c) && |c| <= k && Recent(c, marked) && p in marked
    ensures p in c && Recent(LruStep(c, p, k), marked)
  {
    var i := MarkedAt(c, marked, p);
    LruStays(c, k, |marked|, i);
  }

  lemma {:induction false} MarkedAt(c: seq<Page>, marked: set<Page>, p: Page) returns (i: nat)
    requires Recent(c, marked) && p in marked
    ensures |c| - |marked| <= i < |c| && c[i] == p
  {
    var tail := c[|c| - |marked|..];
    assert p in Pages(tail);
    var j :| 0 <= j < |tail| && tail[j] == p;
    i := |c| - |marked| + j;
  }

  lemma {:induction false} LruRecent(c: seq<Page>, h: Phase, p: Page, k: nat)
    requires k >= 1 && Distinct(c) && |c| <= k && h.number >= 1 && |h.marked| <= k && Recent(c, h.marked)
    ensures Recent(LruStep(c, p, k), PhaseStep(h, p, k).marked)
    ensures p in h.marked ==> p in c
  {
    if p in h.marked {
      LruMarkedHit(c, h.marked, p, k);
    } else if |h.marked| < k {
      LruJoins(c, h.marked, p, k);
    } else {
      LruLast(c, p, k);
    }
  }

  lemma {:induction false} LruJoins(c: seq<Page>, marked: set<Page>, p: Page, k: nat)
    requires k >= 1 && Distinct(c) && |c| <= k && |marked| < k && Recent(c, marked) && p !in marked
    ensures Recent(LruStep(c, p, k), marked + {p})
  {
    var tail := c[|c| - |marked|..];
    assert p !in Pages(tail);
    LruGrows(c, p, k, |marked|);
    PagesConcat(tail, [p]);
    assert Pages([p]) == {p};
  }

  lemma {:induction false} LruLast(c: seq<Page>, p: Page, k: nat)
    ensures Recent(LruStep(c, p, k), {p})
  {
    var d := LruStep(c, p, k);
    assert d[|d| - 1..] == [p];
  }

  lemma {:induction false} LruPays(trace: seq<Page>, k: nat)
    requires k >= 1 && trace != []
    ensures Recent(Lru(trace, k), Phases(trace, k).marked)
    ensures LruMisses(trace, k) <= Allowance(Phases(trace, k).number, |Phases(trace, k).marked|, k)
  {
    var t, p := trace[..|trace| - 1], trace[|trace| - 1];
    if t == [] {
      assert Lru(trace, k) == [p] && [p][0..] == [p];
      assert Pages([p]) == {p};
    } else {
      LruPays(t, k);
      LruDistinct(t, k);
      PhaseSize(t, k);
      LruRecent(Lru(t, k), Phases(t, k), p, k);
      AllowanceStep(Phases(t, k), p, k);
    }
  }

  // ----- FIFO misses at most k times per phase

  /** The `f` pages brought in during this phase are the newest `f` entries of the queue. */
  ghost predicate Newest(c: seq<Page>, marked: set<Page>, f: nat)
  {
    f <= |c| && Pages(c[|c| - f..]) <= marked
  }

  /** Room is left for another page of the phase. */
  lemma {:induction false} FifoRoom(c: seq<Page>, marked: set<Page>, p: Page, k: nat, f: nat)
    requires Distinct(c) && Newest(c, marked, f) && |marked + {p}| <= k && p !in c
    ensures f < k
  {
    var tail := c[|c| - f..];
    DistinctSize(tail);
    assert p !in Pages(tail);
    SubsetSize(Pages(tail) + {p}, marked + {p});
  }

  lemma {:induction false} FifoNewest(c: seq<Page>, marked: set<Page>, p: Page, k: nat, f: nat)
    requires k >= 1 && |c| <= k && Newest(c, marked, f) && p !in c && f < k
    ensures Newest(FifoStep(c, p, k), marked + {p}, f + 1)
  {
    var d, tail := FifoStep(c, p, k), c[|c| - f..];
    assert d[|d| - f - 1..] == tail + [p];
    PagesConcat(tail, [p]);
  }

  lemma {:induction false} FifoSteps(c: seq<Page>, h: Phase, p: Page, k: nat, f: nat) returns (g: nat)
    requires k >= 1 && Distinct(c) && |c| <= k && h.number >= 1 && |h.marked| <= k && Newest(c, h.marked, f)
    ensures Newest(FifoStep(c, p, k), PhaseStep(h, p, k).marked, g)
    ensures Allowance(h.number, f, k) + Miss(c, p) <= Allowance(PhaseStep(h, p, k).number, g, k)
  {
    if p in h.marked || |h.marked| < k {
      if p in c {
        g := f;
      } else {
        assert p in h.marked ==> h.marked + {p} == h.marked;
        FifoRoom(c, h.marked, p, k, f);
        FifoNewest(c, h.marked, p, k, f);
        g := f + 1;
      }
    } else {
      AllowanceNext(h.number, k);
      var d := FifoStep(c, p, k);
      g := Miss(c, p);
      if p in c { assert d[|d|..] == []; } else { assert d[|d| - 1..] == [p]; }
    }
  }

  lemma {:induction false} FifoPays(trace: seq<Page>, k: nat) returns (f: nat)
    requires k >= 1 && trace != []
    ensures Newest(Fifo(trace, k), Phases(trace, k).marked, f)
    ensures FifoMisses(trace, k) <= Allowance(Phases(trace, k).number, f, k)
  {
    var t, p := trace[..|trace| - 1], trace[|trace| - 1];
    if t == [] {
      assert Fifo(trace, k) == [p] && [p][0..] == [p];
      assert Pages([p]) == {p};
      f := 1;
    } else {
      f := FifoPays(t, k);
      FifoDistinct(t, k);
      PhaseSize(t, k);
      f := FifoSteps(Fifo(t, k), Phases(t, k), p, k, f);
    }
  }

  // ----- the theorems

  lemma {:induction false} OracleAtLeast(trace: seq<Page>, k: nat, victims: seq<nat>)
    requires k >= 1 && |victims| == |trace| && ValidVictims(victims, k)
    ensures OracleMisses(trace, k, victims) >= Phases(trace, k).number
  {
    OraclePays(trace, k, victims);
  }

  lemma {:induction false} LruAtMost(trace: seq<Page>, k: nat)
    requires k >= 1
    ensures LruMisses(trace, k) <= k * Phases(trace, k).number
  {
    if trace != [] {
      LruPays(trace, k);
      PhaseSize(trace, k);
      AllowanceNext(Phases(trace, k).number, k);
    }
  }

  lemma {:induction false} FifoAtMost(trace: seq<Page>, k: nat)
    requires k >= 1
    ensures FifoMisses(trace, k) <= k * Phases(trace, k).number
  {
    if trace != [] {
      var f := FifoPays(trace, k);
      FifoDistinct(trace, k);
      PhaseSize(trace, k);
      AllowanceNext(Phases(trace, k).number, k);
    }
  }

  /** LRU is k-competitive against every victim choice. */
  lemma {:induction false} LruCompetitive(trace: seq<Page>, k: nat, victims: seq<nat>)
    requires k >= 1 && |victims| == |trace| && ValidVictims(victims, k)
    ensures LruMisses(trace, k) <= k * OracleMisses(trace, k, victims)
  {
    LruAtMost(trace, k);
    OracleAtLeast(trace, k, victims);
    Scale(LruMisses(trace, k), Phases(trace, k).number, OracleMisses(trace, k, victims), k);
  }

  lemma {:induction false} Scale(l: nat, n: nat, o: nat, k: nat)
    requires l <= k * n && n <= o
    ensures l <= k * o
  {
    assert k * n <= k * o;
  }

  /** FIFO is k-competitive against every victim choice. */
  lemma {:induction false} FifoCompetitive(trace: seq<Page>, k: nat, victims: seq<nat>)
    requires k >= 1 && |victims| == |trace| && ValidVictims(victims, k)
    ensures FifoMisses(trace, k) <= k * OracleMisses(trace, k, victims)
  {
    FifoAtMost(trace, k);
    OracleAtLeast(trace, k, victims);
    Scale(FifoMisses(trace, k), Phases(trace, k).number, OracleMisses(trace, k, victims), k);
  }
}
