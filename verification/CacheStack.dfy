/** LRU is a stack algorithm: it holds exactly the most recently used pages, larger caches contain
    smaller ones, and more capacity never costs a hit. */
module CacheStack {
  import opened Words
  import opened CacheModel

  /** All pages of the trace, least recently used first. */
  function Recency(trace: seq<Page>): seq<Page>
  {
    if trace == [] then []
    else Remove(Recency(trace[..|trace| - 1]), trace[|trace| - 1]) + [trace[|trace| - 1]]
  }

  ghost predicate ByLastUse(trace: seq<Page>, r: seq<Page>)
  {
    forall i, j :: 0 <= i < j < |r| ==> LastUse(trace, r[i]) < LastUse(trace, r[j])
  }

  /** `Recency` lists every requested page once, in the order of last use. */
  lemma {:induction false} RecencyOrder(trace: seq<Page>)
    ensures Distinct(Recency(trace)) && ByLastUse(trace, Recency(trace))
    ensures forall p :: p in Recency(trace) <==> p in trace
  {
    if trace != [] {
      var t, p := trace[..|trace| - 1], trace[|trace| - 1];
      var r := Recency(t);
      RecencyOrder(t);
      assert trace == t + [p];
      assert Distinct(Remove(r, p) + [p]) by { RemoveMember(r, p); }
      forall q ensures q in Recency(trace) <==> q in trace { RemoveMember(r, p); }
      RemoveOrder(t, r, p);
      var s := Remove(r, p);
      forall i, j | 0 <= i < j < |s + [p]|
        ensures LastUse(trace, (s + [p])[i]) < LastUse(trace, (s + [p])[j])
      {
        RemoveMember(r, p);
        assert s[i] in s && s[i] != p;
        if j < |s| { assert s[j] in s && s[j] != p; }
      }
    }
  }

  lemma {:induction false} RemoveOrder(t: seq<Page>, r: seq<Page>, p: Page)
    requires Distinct(r) && ByLastUse(t, r)
    ensures ByLastUse(t, Remove(r, p))
  {
    if p in r {
      var i :| 0 <= i < |r| && r[i] == p;
      RemoveAt(r, i);
      SkipOrder(t, r, i);
    } else {
      RemoveNothing(r, p);
    }
  }

  lemma {:induction false} SkipOrder(t: seq<Page>, r: seq<Page>, i: nat)
    requires ByLastUse(t, r) && i < |r|
    ensures ByLastUse(t, r[..i] + r[i + 1..])
  {
    var q := r[..i] + r[i + 1..];
    forall a, b | 0 <= a < b < |q| ensures LastUse(t, q[a]) < LastUse(t, q[b]) {
      var c, d := if a < i then a else a + 1, if b < i then b else b + 1;
      assert q[a] == r[c] && q[b] == r[d];
    }
  }

  lemma {:induction false} RemoveNothing(c: seq<Page>, p: Page)
    requires p !in c
    ensures Remove(c, p) == c
  {
    if c != [] { RemoveNothing(c[1..], p); }
  }

  /** The last `k` entries of a list, or all of it. */
  function Last(c: seq<Page>, k: nat): (r: seq<Page>)
    ensures |r| == Min(k, |c|)
  {
    c[|c| - Min(k, |c|)..]
  }

  /** Position of a page relative to the last `k`. */
  lemma {:induction false} LastHit(r: seq<Page>, k: nat, i: nat)
    requires Distinct(r) && i < |r| && k >= 1
    ensures LruStep(Last(r, k), r[i], k) == Last(r[..i] + r[i + 1..] + [r[i]], k)
  {
    if i >= |r| - Min(k, |r|) { LastRecent(r, k, i); } else { LastOlder(r, k, i); }
  }

  lemma {:induction false} LastRecent(r: seq<Page>, k: nat, i: nat)
    requires Distinct(r) && |r| - Min(k, |r|) <= i < |r|
    ensures LruStep(Last(r, k), r[i], k) == Last(r[..i] + r[i + 1..] + [r[i]], k)
  {
    var c, s, p := Last(r, k), Min(k, |r|), r[i];
    var j := i - (|r| - s);
    assert c[j] == p;
    RemoveAt(c, j);
    assert c[..j] == r[|r| - s..i] && c[j + 1..] == r[i + 1..];
    Splice(r, i, |r| - s);
  }

  lemma {:induction false} Splice(r: seq<Page>, i: nat, m: nat)
    requires m <= i < |r|
    ensures (r[..i] + r[i + 1..] + [r[i]])[m..] == r[m..i] + r[i + 1..] + [r[i]]
  {
  }

  lemma {:induction false} LastOlder(r: seq<Page>, k: nat, i: nat)
    requires Distinct(r) && i < |r| - Min(k, |r|) && k >= 1
    ensures LruStep(Last(r, k), r[i], k) == Last(r[..i] + r[i + 1..] + [r[i]], k)
  {
    var d := r[..i] + r[i + 1..] + [r[i]];
    assert |r| > k && r[i] !in Last(r, k);
    assert d[|r| - k..] == r[|r| - k + 1..] + [r[i]];
  }

  /** LRU with capacity `k` holds exactly the `k` most recently used pages, in recency order. */
  lemma {:induction false} LruIsRecency(trace: seq<Page>, k: nat)
    requires k >= 1
    ensures Lru(trace, k) == Last(Recency(trace), k)
  {
    if trace != [] {
      var t, p := trace[..|trace| - 1], trace[|trace| - 1];
      var r := Recency(t);
      LruIsRecency(t, k);
      RecencyOrder(t);
      if p in r {
        var i :| 0 <= i < |r| && r[i] == p;
        RemoveAt(r, i);
        LastHit(r, k, i);
      } else {
        RemoveNothing(r, p);
        LastMiss(r, k, p);
      }
    }
  }

  lemma {:induction false} LastMiss(r: seq<Page>, k: nat, p: Page)
    requires p !in r && k >= 1
    ensures LruStep(Last(r, k), p, k) == Last(r + [p], k)
  {
    assert p !in Last(r, k);
  }

  /** Inclusion: a smaller LRU cache is the recent end of a larger one. */
  lemma {:induction false} Inclusion(trace: seq<Page>, k: nat, l: nat)
    requires 1 <= k <= l
    ensures Lru(trace, k) == Last(Lru(trace, l), k)
    ensures forall p :: p in Lru(trace, k) ==> p in Lru(trace, l)
  {
    LruIsRecency(trace, k);
    LruIsRecency(trace, l);
    LastLast(Recency(trace), k, l);
  }

  lemma {:induction false} LastLast(r: seq<Page>, k: nat, l: nat)
    requires k <= l
    ensures Last(Last(r, l), k) == Last(r, k)
  {
  }

  /** More capacity never adds a miss. */
  lemma {:induction false} MoreIsBetter(trace: seq<Page>, k: nat, l: nat)
    requires 1 <= k <= l
    ensures LruMisses(trace, l) <= LruMisses(trace, k)
  {
    if trace != [] {
      var t := trace[..|trace| - 1];
      MoreIsBetter(t, k, l);
      Inclusion(t, k, l);
    }
  }
}
