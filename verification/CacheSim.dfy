/** The simulator loops: a list, a membership set and a hit counter updated per request. */
module CacheSim {
  import opened CacheModel
  import opened CacheCompetitive

  method FindPage(c: seq<Page>, p: Page) returns (i: nat)
    requires p in c
    ensures i < |c| && c[i] == p && p !in c[..i]
  {
    i := 0;
    while c[i] != p
      invariant 0 <= i < |c| && p !in c[..i] && p in c[i..]
      decreases |c| - i
    {
      i := i + 1;
    }
  }

  /** `simulate_lru`. */
  method SimulateLru(trace: seq<Page>, k: nat) returns (hits: nat)
    requires k >= 1
    ensures hits + LruMisses(trace, k) == |trace|
  {
    var cache: seq<Page>, present: set<Page> := [], {};
    hits := 0;
    for n := 0 to |trace|
      invariant cache == Lru(trace[..n], k) && present == Pages(cache)
      invariant hits + LruMisses(trace[..n], k) == n
    {
      var p := trace[n];
      assert trace[..n + 1][..n] == trace[..n];
      LruDistinct(trace[..n], k);
      if p in present {
        hits := hits + 1;
        var i := FindPage(cache, p);
        LruHit(cache, k, i);
        cache := cache[..i] + cache[i + 1..] + [p];
      } else {
        LruMiss(cache, p, k);
        if |cache| == k {
          present := present - {cache[0]};
          cache := cache[1..];
        }
        cache := cache + [p];
        present := present + {p};
      }
    }
    assert trace[..|trace|] == trace;
  }

  lemma {:induction false} LruHit(c: seq<Page>, k: nat, i: nat)
    requires Distinct(c) && i < |c|
    ensures var d := c[..i] + c[i + 1..] + [c[i]]; d == LruStep(c, c[i], k) && Pages(d) == Pages(c)
  {
    RemoveAt(c, i);
    RemoveMember(c, c[i]);
    PagesConcat(Remove(c, c[i]), [c[i]]);
  }

  lemma {:induction false} LruMiss(c: seq<Page>, p: Page, k: nat)
    requires Distinct(c) && p !in c && k >= 1
    ensures var d := if |c| == k then c[1..] else c;
      && LruStep(c, p, k) == d + [p]
      && Pages(d + [p]) == (if |c| == k then Pages(c) - {c[0]} else Pages(c)) + {p}
  {
    if |c| == k { DropMember(c); }
    PagesConcat(if |c| == k then c[1..] else c, [p]);
  }

  lemma {:induction false} DropMember(c: seq<Page>)
    requires Distinct(c) && c != []
    ensures Pages(c[1..]) == Pages(c) - {c[0]}
  {
    assert c == [c[0]] + c[1..];
    PagesConcat([c[0]], c[1..]);
    assert c[0] !in c[1..];
  }

  /** `simulate_fifo`. */
  method SimulateFifo(trace: seq<Page>, k: nat) returns (hits: nat)
    requires k >= 1
    ensures hits + FifoMisses(trace, k) == |trace|
  {
    var cache: seq<Page>, present: set<Page> := [], {};
    hits := 0;
    for n := 0 to |trace|
      invariant cache == Fifo(trace[..n], k) && present == Pages(cache)
      invariant hits + FifoMisses(trace[..n], k) == n
    {
      var p := trace[n];
      assert trace[..n + 1][..n] == trace[..n];
      FifoDistinct(trace[..n], k);
      if p in present {
        hits := hits + 1;
      } else {
        if |cache| == k {
          DropMember(cache);
          present := present - {cache[0]};
          cache := cache[1..];
        }
        PagesConcat(cache, [p]);
        cache := cache + [p];
        present := present + {p};
      }
    }
    assert trace[..|trace|] == trace;
  }

  lemma {:induction false} ReplaceMember(c: seq<Page>, v: nat, p: Page)
    requires Distinct(c) && v < |c| && p !in c
    ensures Pages(c[v := p]) == Pages(c) - {c[v]} + {p}
  {
    forall q ensures q in Pages(c[v := p]) <==> q in Pages(c) - {c[v]} + {p} {
      if q in c && q != c[v] {
        var i :| 0 <= i < |c| && c[i] == q;
        assert c[v := p][i] == q;
      }
      assert c[v := p][v] == p;
    }
  }

  /** A miss: the page takes the victim's slot of a full cache, or a new one. */
  method Insert(c: seq<Page>, present: set<Page>, p: Page, k: nat, victim: nat) returns (d: seq<Page>, after: set<Page>)
    requires Distinct(c) && |c| <= k && present == Pages(c) && p !in c && victim < k
    ensures d == OracleStep(c, p, k, victim) && after == Pages(d)
  {
    if |c| == k {
      ReplaceMember(c, victim, p);
      d, after := c[victim := p], present - {c[victim]};
    } else {
      PagesConcat(c, [p]);
      d, after := c + [p], present;
    }
    after := after + {p};
  }

  /** What a request does to an arbitrary-victim cache. */
  lemma {:induction false} OracleNext(trace: seq<Page>, n: nat, k: nat, v: seq<nat>, e: nat)
    requires n < |trace| && |v| == n && k >= 1 && e < k && ValidVictims(v, k)
    ensures var c := Oracle(trace[..n], k, v);
      && Oracle(trace[..n + 1], k, v + [e]) == OracleStep(c, trace[n], k, e)
      && OracleMisses(trace[..n + 1], k, v + [e]) == OracleMisses(trace[..n], k, v) + Miss(c, trace[n])
  {
    assert trace[..n + 1][..n] == trace[..n] && (v + [e])[..n] == v;
  }

  /** `simulate_random`, the generator's draws given as `victims`. */
  method SimulateRandom(trace: seq<Page>, k: nat, victims: seq<nat>) returns (hits: nat)
    requires k >= 1 && |victims| == |trace| && ValidVictims(victims, k)
    ensures hits + OracleMisses(trace, k, victims) == |trace|
    ensures LruMisses(trace, k) <= k * (|trace| - hits) && FifoMisses(trace, k) <= k * (|trace| - hits)
  {
    var cache: seq<Page>, present: set<Page> := [], {};
    hits := 0;
    for n := 0 to |trace|
      invariant cache == Oracle(trace[..n], k, victims[..n]) && present == Pages(cache)
      invariant hits + OracleMisses(trace[..n], k, victims[..n]) == n
    {
      var p := trace[n];
      OracleDistinct(trace[..n], k, victims[..n]);
      OracleNext(trace, n, k, victims[..n], victims[n]);
      assert victims[..n] + [victims[n]] == victims[..n + 1];
      if p in present {
        hits := hits + 1;
      } else {
        cache, present := Insert(cache, present, p, k, victims[n]);
      }
    }
    assert trace[..|trace|] == trace && victims[..|trace|] == victims;
    OracleBounds(trace, k, victims, hits);
  }

  lemma {:induction false} OracleBounds(trace: seq<Page>, k: nat, victims: seq<nat>, hits: nat)
    requires k >= 1 && |victims| == |trace| && ValidVictims(victims, k)
    requires hits + OracleMisses(trace, k, victims) == |trace|
    ensures LruMisses(trace, k) <= k * (|trace| - hits) && FifoMisses(trace, k) <= k * (|trace| - hits)
  {
    LruCompetitive(trace, k, victims);
    FifoCompetitive(trace, k, victims);
    Remaining(LruMisses(trace, k), k, OracleMisses(trace, k, victims), hits, |trace|);
    Remaining(FifoMisses(trace, k), k, OracleMisses(trace, k, victims), hits, |trace|);
  }

  lemma {:induction false} Remaining(l: nat, k: nat, misses: nat, hits: nat, n: nat)
    requires l <= k * misses && hits + misses == n
    ensures l <= k * (n - hits)
  {
    assert n - hits == misses;
  }

  // ----- eviction by a model's scores

  /** `np.argmin`: the first index of the least value among the first `n`. */
  function FirstLeast(a: seq<real>, n: nat): (m: nat)
    requires 1 <= n <= |a|
    ensures m < n && (forall i :: 0 <= i < n ==> a[m] <= a[i]) && forall i :: 0 <= i < m ==> a[m] < a[i]
  {
    if n == 1 then 0
    else
      var m := FirstLeast(a, n - 1);
      if a[n - 1] < a[m] then n - 1 else m
  }

  method ArgMin(a: seq<real>) returns (m: nat)
    requires a != []
    ensures m == FirstLeast(a, |a|)
  {
    m := 0;
    for i := 1 to |a|
      invariant m == FirstLeast(a, i)
    {
      if a[i] < a[m] { m := i; }
    }
  }

  /** Position of the last request for `p`; a page never requested counts as `unseen` before the start. */
  function LastAt(t: seq<Page>, p: Page, unseen: int): int
  {
    if LastUse(t, p) < 0 then -unseen else LastUse(t, p)
  }

  function Count(t: seq<Page>, p: Page): nat
  {
    if t == [] then 0 else Count(t[..|t| - 1], p) + if t[|t| - 1] == p then 1 else 0
  }

  /** Recency and frequency of every page of `c` after the requests `t`. */
  function Features(t: seq<Page>, c: seq<Page>, unseen: int): (f: seq<(int, nat)>)
    ensures |f| == |c|
  {
    if c == [] then []
    else
      var p := c[|c| - 1];
      Features(t, c[..|c| - 1], unseen) + [(|t| - LastAt(t, p, unseen), Count(t, p))]
  }

  type Model = seq<(int, nat)> -> seq<real>

  /** A model scores every page it is shown. */
  ghost predicate Scores(model: Model) { forall f: seq<(int, nat)> :: |model(f)| == |f| }

  /** The slots a model evicts from: the first of least score whenever a miss meets a full cache. */
  ghost function MlVictims(trace: seq<Page>, k: nat, model: Model, unseen: int): (v: seq<nat>)
    requires k >= 1 && Scores(model)
    ensures |v| == |trace| && ValidVictims(v, k)
  {
    if trace == [] then []
    else
      var t, p := trace[..|trace| - 1], trace[|trace| - 1];
      var v := MlVictims(t, k, model, unseen);
      var c := Oracle(t, k, v);
      v + [if p !in c && |c| == k then FirstLeast(model(Features(t, c, unseen)), k) else 0]
  }

  /** The two dictionaries of `simulate_ml` after the requests `t`. */
  ghost predicate Tracks(t: seq<Page>, lastSeen: map<Page, int>, counts: map<Page, nat>, unseen: int)
  {
    && (forall p :: LastAt(t, p, unseen) == if p in lastSeen then lastSeen[p] else -unseen)
    && (forall p :: Count(t, p) == if p in counts then counts[p] else 0)
  }

  /** The bookkeeping at the end of a request. */
  method Track(t: seq<Page>, n: nat, p: Page, lastSeen: map<Page, int>, counts: map<Page, nat>, unseen: int)
    returns (seen: map<Page, int>, freq: map<Page, nat>)
    requires n < |t| && t[n] == p && Tracks(t[..n], lastSeen, counts, unseen)
    ensures Tracks(t[..n + 1], seen, freq, unseen)
  {
    assert t[..n + 1][..n] == t[..n];
    seen := lastSeen[p := n];
    freq := counts[p := (if p in counts then counts[p] else 0) + 1];
  }

  /** The feature rows, read from the dictionaries. */
  method Gather(c: seq<Page>, n: nat, lastSeen: map<Page, int>, counts: map<Page, nat>, unseen: int, ghost t: seq<Page>)
    returns (f: seq<(int, nat)>)
    requires n == |t| && Tracks(t, lastSeen, counts, unseen)
    ensures f == Features(t, c, unseen)
  {
    f := [];
    for i := 0 to |c|
      invariant f == Features(t, c[..i], unseen)
    {
      var p := c[i];
      assert c[..i + 1][..i] == c[..i];
      f := f + [(n - (if p in lastSeen then lastSeen[p] else -unseen), if p in counts then counts[p] else 0)];
    }
    assert c[..|c|] == c;
  }

  lemma {:induction false} MlVictimsNext(trace: seq<Page>, n: nat, k: nat, model: Model, unseen: int)
    requires n < |trace| && k >= 1 && Scores(model)
    ensures var t, v := trace[..n], MlVictims(trace[..n], k, model, unseen);
      var c := Oracle(t, k, v);
      MlVictims(trace[..n + 1], k, model, unseen)
      == v + [if trace[n] !in c && |c| == k then FirstLeast(model(Features(t, c, unseen)), k) else 0]
  {
    assert trace[..n + 1][..n] == trace[..n];
  }

  /** The simulation has come to request `n`. */
  ghost predicate MlAt(trace: seq<Page>, n: nat, k: nat, model: Model, unseen: int, cache: seq<Page>, hits: nat)
    requires n <= |trace| && k >= 1 && Scores(model)
  {
    var v := MlVictims(trace[..n], k, model, unseen);
    cache == Oracle(trace[..n], k, v) && hits + OracleMisses(trace[..n], k, v) == n
  }

  /** One request, a miss in a full cache evicting the slot of least score. */
  lemma {:induction false} MlNext(trace: seq<Page>, n: nat, k: nat, model: Model, unseen: int, c: seq<Page>, hits: nat, e: nat)
    requires n < |trace| && k >= 1 && Scores(model) && MlAt(trace, n, k, model, unseen, c, hits)
    requires e == if trace[n] !in c && |c| == k then FirstLeast(model(Features(trace[..n], c, unseen)), k) else 0
    ensures MlAt(trace, n + 1, k, model, unseen, OracleStep(c, trace[n], k, e), hits + 1 - Miss(c, trace[n]))
  {
    MlVictimsNext(trace, n, k, model, unseen);
    OracleNext(trace, n, k, MlVictims(trace[..n], k, model, unseen), e);
  }

  /** Whatever the model answers, LRU and FIFO miss at most `k` times as often as its simulation. */
  lemma {:induction false} MlCompetitive(trace: seq<Page>, k: nat, model: Model, unseen: int, hits: nat)
    requires k >= 1 && Scores(model)
    requires hits + OracleMisses(trace, k, MlVictims(trace, k, model, unseen)) == |trace|
    ensures LruMisses(trace, k) <= k * (|trace| - hits) && FifoMisses(trace, k) <= k * (|trace| - hits)
  {
    OracleBounds(trace, k, MlVictims(trace, k, model, unseen), hits);
  }

  /** The slot a miss would take, by the model's scores. */
  method Choose(c: seq<Page>, p: Page, n: nat, k: nat, model: Model, lastSeen: map<Page, int>, counts: map<Page, nat>,
                unseen: int, ghost t: seq<Page>) returns (evict: nat)
    requires n == |t| && k >= 1 && Scores(model) && Tracks(t, lastSeen, counts, unseen)
    ensures evict == if p !in c && |c| == k then FirstLeast(model(Features(t, c, unseen)), k) else 0
    ensures evict < k
  {
    evict := 0;
    if p !in c && |c| == k {
      var f := Gather(c, n, lastSeen, counts, unseen, t);
      evict := ArgMin(model(f));
    }
  }

  /** One request of `simulate_ml`. */
  method Request(trace: seq<Page>, n: nat, k: nat, ghost model: Model, ghost unseen: int,
                 cache: seq<Page>, present: set<Page>, hits: nat, evict: nat)
    returns (c: seq<Page>, after: set<Page>, h: nat)
    requires n < |trace| && k >= 1 && evict < k && Scores(model)
    requires MlAt(trace, n, k, model, unseen, cache, hits) && present == Pages(cache)
    requires evict == if trace[n] !in cache && |cache| == k then FirstLeast(model(Features(trace[..n], cache, unseen)), k) else 0
    ensures MlAt(trace, n + 1, k, model, unseen, c, h) && after == Pages(c)
  {
    OracleDistinct(trace[..n], k, MlVictims(trace[..n], k, model, unseen));
    MlNext(trace, n, k, model, unseen, cache, hits, evict);
    c, after, h := cache, present, hits;
    if trace[n] in present {
      h := h + 1;
    } else {
      c, after := Insert(cache, present, trace[n], k, evict);
    }
  }

  lemma {:induction false} MlStart(trace: seq<Page>, k: nat, model: Model, unseen: int)
    requires k >= 1 && Scores(model)
    ensures MlAt(trace, 0, k, model, unseen, [], 0) && Tracks(trace[..0], map[], map[], unseen)
  {
    assert trace[..0] == [];
  }

  /** `simulate_ml`: a miss evicts the cached page of least score, so its hits are those of the model's
      own choice of victims. */
  method SimulateMl(trace: seq<Page>, k: nat, model: Model, unseen: int) returns (hits: nat)
    requires k >= 1 && Scores(model)
    ensures hits + OracleMisses(trace, k, MlVictims(trace, k, model, unseen)) == |trace|
  {
    var cache: seq<Page>, present: set<Page> := [], {};
    var lastSeen: map<Page, int>, counts: map<Page, nat> := map[], map[];
    hits := 0;
    MlStart(trace, k, model, unseen);
    for n := 0 to |trace|
      invariant MlAt(trace, n, k, model, unseen, cache, hits) && present == Pages(cache)
      invariant Tracks(trace[..n], lastSeen, counts, unseen)
    {
      var evict := Choose(cache, trace[n], n, k, model, lastSeen, counts, unseen, trace[..n]);
      cache, present, hits := Request(trace, n, k, model, unseen, cache, present, hits, evict);
      lastSeen, counts := Track(trace, n, trace[n], lastSeen, counts, unseen);
    }
    assert trace[..|trace|] == trace;
  }
}
