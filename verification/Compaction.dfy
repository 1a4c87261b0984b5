/**
 Compaction of the gap-threaded text: the live cells move down to the front, in order.
 */
module Compaction {
  import opened RecordTable
  import opened TextThread
  import opened PairSets
  import opened Coupling
  import opened PairIndexes

  /** `at` lists the live cells from the first to the last. */
  ghost predicate Lays(th: Thread, u: int, at: seq<int>) {
    && |th.live| == |th.succ| == u
    && (forall k :: 0 <= k < |at| ==> k <= at[k] < u && th.live[at[k]])
    && (forall j, k :: 0 <= j < k < |at| ==> at[j] < at[k])
    && (forall k {:trigger th.succ[at[k]]} :: 0 <= k < |at| ==> th.succ[at[k]] == if k + 1 < |at| then at[k + 1] else u)
    && (forall p :: 0 <= p < u && th.live[p] ==> p in at)
  }

  ghost predicate LaysFrom(th: Thread, u: int, at: seq<int>, p: int) {
    && |th.live| == |th.succ| == u && 0 <= p <= u
    && (forall k :: 0 <= k < |at| ==> p + k <= at[k] < u && th.live[at[k]])
    && (forall j, k :: 0 <= j < k < |at| ==> at[j] < at[k])
    && (forall k {:trigger th.succ[at[k]]} :: 0 <= k < |at| ==> th.succ[at[k]] == if k + 1 < |at| then at[k + 1] else u)
    && (forall q :: p <= q < u && 0 <= q && th.live[q] ==> q in at)
    && (p < u ==> |at| > 0 && at[0] == p)
  }

  /** The symbols at the cells `at`. */
  ghost function Gather(text: seq<int>, at: seq<int>): (r: seq<int>)
    requires forall k :: 0 <= k < |at| ==> 0 <= at[k] < |text|
    ensures |r| == |at| && forall k :: 0 <= k < |at| ==> r[k] == text[at[k]]
  {
    seq(|at|, k requires 0 <= k < |at| => text[at[k]])
  }

  lemma {:induction false} LayoutFrom(text: seq<int>, th: Thread, p: int) returns (at: seq<int>)
    requires Chained(th, |text|) && Place(th, |text|, p) && 0 <= p
    ensures LaysFrom(th, |text|, at, p) && From(text, th, p) == Gather(text, at)
    decreases |text| - p
  {
    if p == |text| {
      at := [];
    } else {
      ForwardAt(th, |text|, p);
      var rest := LayoutFrom(text, th, th.succ[p]);
      at := [p] + rest;
      LayoutStep(text, th, p, rest);
    }
  }

  lemma LayoutCover(text: seq<int>, th: Thread, p: int, rest: seq<int>)
    requires Chained(th, |text|) && 0 <= p < |text| && th.live[p] && p < th.succ[p] <= |text|
    requires LaysFrom(th, |text|, rest, th.succ[p])
    ensures forall q :: p <= q < |text| && th.live[q] ==> q in [p] + rest
  {
    forall q | p <= q < |text| && th.live[q] ensures q in [p] + rest {
      NotBetween(th, |text|, p, q);
      hide Chained;
      if q != p {
        assert q in rest;
      }
    }
  }

  lemma LayoutLinks(th: Thread, u: int, p: int, rest: seq<int>)
    requires |th.live| == |th.succ| == u && 0 <= p < u && th.live[p] && p < th.succ[p] <= u
             && LaysFrom(th, u, rest, th.succ[p])
    ensures var at := [p] + rest;
            && (forall k :: 0 <= k < |at| ==> p + k <= at[k] < u && th.live[at[k]])
            && (forall j, k :: 0 <= j < k < |at| ==> at[j] < at[k])
            && (forall k {:trigger th.succ[at[k]]} :: 0 <= k < |at| ==>
                 th.succ[at[k]] == if k + 1 < |at| then at[k + 1] else u)
  {
    var at := [p] + rest;
    assert forall k :: 0 < k < |at| ==> at[k] == rest[k - 1];
    assert |rest| == 0 ==> th.succ[p] == u;
    forall k | 0 <= k < |at| ensures th.succ[at[k]] == if k + 1 < |at| then at[k + 1] else u {
      if k > 0 {
        assert th.succ[rest[k - 1]] == if k < |rest| then rest[k] else u;
      }
    }
  }

  lemma LayoutStep(text: seq<int>, th: Thread, p: int, rest: seq<int>)
    requires Chained(th, |text|) && 0 <= p < |text| && th.live[p] && p < th.succ[p] <= |text|
             && Place(th, |text|, th.succ[p])
    requires LaysFrom(th, |text|, rest, th.succ[p]) && From(text, th, th.succ[p]) == Gather(text, rest)
    ensures LaysFrom(th, |text|, [p] + rest, p) && From(text, th, p) == Gather(text, [p] + rest)
  {
    LayoutCover(text, th, p, rest);
    LayoutLinks(th, |text|, p, rest);
    hide Chained;
    var at := [p] + rest;
    assert forall k :: 0 < k < |at| ==> at[k] == rest[k - 1];
    assert Gather(text, at) == [text[p]] + Gather(text, rest);
  }

  lemma NotBetween(th: Thread, u: int, p: int, q: int)
    requires Chained(th, u) && 0 <= p < u && th.live[p] && p <= q < u && th.live[q]
    ensures q == p || th.succ[p] <= q
  {
    hide Forward, Backward;
    assert th.succ[p] == th.succ[p];
  }

  lemma Layout(text: seq<int>, th: Thread) returns (at: seq<int>)
    requires Chained(th, |text|)
    ensures Lays(th, |text|, at) && Content(text, th) == Gather(text, at) && (|text| > 0 ==> |at| > 0 && at[0] == 0)
  {
    at := LayoutFrom(text, th, 0);
    hide Chained;
  }

  // ---------- the flat text ----------

  ghost function Flat(n: int): (th: Thread)
    requires 0 <= n
  {
    Thread(seq(n, _ => true), seq(n, p => p + 1), seq(n, p => p - 1))
  }

  lemma FlatThreads(text: seq<int>)
    requires forall p :: 0 <= p < |text| ==> text[p] >= 0
    ensures Threads(text, Flat(|text|))
  {
  }

  lemma {:induction false} FlatFrom(text: seq<int>, p: int)
    requires 0 <= p <= |text| && Chained(Flat(|text|), |text|)
    ensures Place(Flat(|text|), |text|, p) && From(text, Flat(|text|), p) == text[p..]
    decreases |text| - p
  {
    if p < |text| {
      FlatFrom(text, p + 1);
    }
  }

  // ---------- occurrences while cells are half moved ----------

  /** The first `m` live cells have moved to the front; occurrences further on are where they were. */
  ghost predicate HalfMoved(idx0: Index, at: seq<int>, m: int, idx: Index) {
    && 0 <= m < |at| && idx.Keys == idx0.Keys
    && (forall x, q {:trigger In(idx, x, q)} :: In(idx, x, q) <==>
          if q < m then 0 <= q && In(idx0, x, at[q]) else at[m] <= q && In(idx0, x, q))
    && (forall x :: x in idx0 ==> |idx[x]| == |idx0[x]|)
  }

  lemma NoneMoved(text: seq<int>, th: Thread, idx: Index, at: seq<int>)
    requires Sound(text, th, idx) && |at| > 0 && at[0] == 0
    ensures HalfMoved(idx, at, 0, idx)
  {
  }

  lemma ShiftIn(idx: Index, i: int, j: int, x: Pair, q: int)
    requires forall y :: !In(idx, y, j) || i == j
    ensures In(ShiftAll(idx, i, j), x, q) <==> (In(idx, x, q) && q != i) || (q == j && In(idx, x, i))
  {
    assert !In(idx, x, j) || i == j;
  }

  lemma NextLive(th: Thread, u: int, at: seq<int>, m: int, q: int)
    requires Lays(th, u, at) && 0 <= m && m + 1 < |at| && 0 <= q < u && th.live[q] && at[m] < q
    ensures at[m + 1] <= q
  {
    var k :| 0 <= k < |at| && at[k] == q;
  }

  lemma OneMoreMoved(text: seq<int>, th: Thread, idx0: Index, at: seq<int>, m: int, idx: Index)
    requires Sound(text, th, idx0) && Lays(th, |text|, at) && HalfMoved(idx0, at, m, idx) && m + 1 < |at|
    ensures forall y :: !In(idx, y, m) || at[m] == m
    ensures HalfMoved(idx0, at, m + 1, ShiftAll(idx, at[m], m))
  {
    var idx' := ShiftAll(idx, at[m], m);
    assert m <= at[m];
    forall x, q
      ensures In(idx', x, q) <==> if q < m + 1 then 0 <= q && In(idx0, x, at[q]) else at[m + 1] <= q && In(idx0, x, q)
    {
      ShiftIn(idx, at[m], m, x, q);
      if q > at[m] && In(idx0, x, q) {
        NextLive(th, |text|, at, m, q);
      }
    }
    forall x | x in idx0 ensures |idx'[x]| == |idx0[x]| {
      assert !In(idx, x, m) || at[m] == m;
      assert m in idx[x] <==> In(idx, x, m);
      ShiftCard(idx[x], at[m], m);
    }
  }

  lemma ShiftCard(s: set<int>, i: int, j: int)
    requires j !in s || i == j
    ensures |Shift(s, i, j)| == |s|
  {
  }

  /** At the end every occurrence sits at the number of its cell. */
  lemma AllMoved(text: seq<int>, th: Thread, idx0: Index, at: seq<int>, idx: Index, x: Pair, q: int)
    requires Sound(text, th, idx0) && Lays(th, |text|, at) && |at| > 0 && HalfMoved(idx0, at, |at| - 1, idx)
    ensures In(idx, x, q) <==> 0 <= q < |at| - 1 && In(idx0, x, at[q])
  {
    if 0 <= q < |text| && |th.live| == |text| && th.live[q] && at[|at| - 1] <= q {
      LastLive(th, |text|, at, q);
    }
  }

  lemma LastLive(th: Thread, u: int, at: seq<int>, q: int)
    requires Lays(th, u, at) && |at| > 0 && 0 <= q < u && th.live[q] && at[|at| - 1] <= q
    ensures th.succ[q] == u
  {
    var k :| 0 <= k < |at| && at[k] == q;
    assert th.succ[at[k]] == u;
  }

  lemma FlatStarts(text: seq<int>, th: Thread, at: seq<int>, text': seq<int>, q: int)
    requires Lays(th, |text|, at) && |text'| == |at| && forall k :: 0 <= k < |at| ==> text'[k] == text[at[k]]
    ensures Starts(text', Flat(|at|), q) <==> 0 <= q < |at| - 1
    ensures 0 <= q < |at| - 1 ==> Starts(text, th, at[q]) && PairAt(text', Flat(|at|), q) == PairAt(text, th, at[q])
  {
    if 0 <= q < |at| - 1 {
      assert th.succ[at[q]] == at[q + 1];
    }
  }

  lemma CompactCoupled(text: seq<int>, th: Thread, idx0: Index, n: int, at: seq<int>, text': seq<int>, idx: Index)
    requires Coupled(text, th, idx0, n) && Lays(th, |text|, at) && |at| > 0 && HalfMoved(idx0, at, |at| - 1, idx)
    requires |text'| == |at| && forall k :: 0 <= k < |at| ==> text'[k] == text[at[k]]
    ensures Coupled(text', Flat(|at|), idx, n)
    ensures forall x, p :: In(idx, x, p) ==> 0 <= p < |at| - 1
  {
    var th' := Flat(|at|);
    forall x, q ensures In(idx, x, q) <==> 0 <= q < |at| - 1 && In(idx0, x, at[q]) {
      AllMoved(text, th, idx0, at, idx, x, q);
    }
    forall q ensures Starts(text', th', q) <==> 0 <= q < |at| - 1 {
      FlatStarts(text, th, at, text', q);
    }
    forall q | 0 <= q < |at| - 1 ensures Starts(text, th, at[q]) && PairAt(text', th', q) == PairAt(text, th, at[q]) {
      FlatStarts(text, th, at, text', q);
    }
    MirrorCoupled(text, th, idx0, n, at, text', idx);
  }

  ghost predicate Mirrors(text: seq<int>, th: Thread, idx0: Index, at: seq<int>, text': seq<int>, idx: Index) {
    && |text'| == |at|
    && (forall x, q {:trigger In(idx, x, q)} :: In(idx, x, q) <==> 0 <= q < |at| - 1 && In(idx0, x, at[q]))
    && (forall q {:trigger Starts(text', Flat(|at|), q)} :: Starts(text', Flat(|at|), q) ==>
          0 <= q < |at| - 1 && Starts(text, th, at[q]) && PairAt(text', Flat(|at|), q) == PairAt(text, th, at[q]))
    && (forall q :: 0 <= q < |at| - 1 ==> Starts(text', Flat(|at|), q))
  }

  lemma MirrorCoupled(text: seq<int>, th: Thread, idx0: Index, n: int, at: seq<int>, text': seq<int>, idx: Index)
    requires Coupled(text, th, idx0, n) && Lays(th, |text|, at) && idx.Keys == idx0.Keys
             && Mirrors(text, th, idx0, at, text', idx)
    ensures Coupled(text', Flat(|at|), idx, n)
  {
    hide Flat, Starts, PairAt, In;
    assert Unique(text', Flat(|at|), idx);
  }

  /** List cells of unrecorded pairs carry the null mark, moved or not. */
  ghost predicate HalfLoose(text: seq<int>, th: Thread, idx0: Index, at: seq<int>, m: int, next: seq<int>,
                            prev: seq<int>) {
    && |next| == |prev| == |text|
    && (forall x {:trigger Starts(text, th, x)} ::
         Starts(text, th, x) && PairAt(text, th, x) !in idx0 && 0 <= m < |at| && at[m] <= x ==>
          prev[x] == NULL_FREQ && next[x] == -1)
    && (forall k {:trigger at[k]} ::
         0 <= k < m && k < |at| && k < |text| && Starts(text, th, at[k]) && PairAt(text, th, at[k]) !in idx0 ==>
          prev[k] == NULL_FREQ && next[k] == -1)
  }

  lemma OneMoreLoose(text: seq<int>, th: Thread, idx0: Index, at: seq<int>, m: int, next: seq<int>, prev: seq<int>,
                     next': seq<int>, prev': seq<int>)
    requires Lays(th, |text|, at) && 0 <= m && m + 1 < |at| && HalfLoose(text, th, idx0, at, m, next, prev)
    requires |next'| == |prev'| == |text|
    requires forall x :: Starts(text, th, x) && PairAt(text, th, x) !in idx0 && at[m + 1] <= x ==>
               next'[x] == next[x] && prev'[x] == prev[x]
    requires forall k :: 0 <= k < m && Starts(text, th, at[k]) && PairAt(text, th, at[k]) !in idx0 ==>
               next'[k] == next[k] && prev'[k] == prev[k]
    requires Starts(text, th, at[m]) && PairAt(text, th, at[m]) !in idx0 ==>
               next'[m] == next[at[m]] && prev'[m] == prev[at[m]]
    ensures HalfLoose(text, th, idx0, at, m + 1, next', prev')
  {
    assert at[m] < at[m + 1];
  }

  lemma AllLoose(text: seq<int>, th: Thread, idx0: Index, n: int, at: seq<int>, text': seq<int>, idx: Index,
                 next: seq<int>, prev: seq<int>)
    requires Lays(th, |text|, at) && |at| > 0 && |at| <= |text| && HalfLoose(text, th, idx0, at, |at| - 1, next, prev)
    requires idx.Keys == idx0.Keys && |text'| == |at| && forall k :: 0 <= k < |at| ==> text'[k] == text[at[k]]
    ensures forall p :: Starts(text', Flat(|at|), p) && PairAt(text', Flat(|at|), p) !in idx ==>
              prev[..|at|][p] == NULL_FREQ && next[..|at|][p] == -1
  {
    forall p | Starts(text', Flat(|at|), p) && PairAt(text', Flat(|at|), p) !in idx
      ensures prev[..|at|][p] == NULL_FREQ && next[..|at|][p] == -1
    {
      FlatStarts(text, th, at, text', p);
    }
  }
}
