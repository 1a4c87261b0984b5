/**
 The Re-Pair engine: the text, the pair index over it, and the replacement loop.
 */
module RePair {
  import opened RecordTable
  import opened Cards
  import opened PairSets
  import opened HashTable
  import opened FrequencyHeap
  import opened PairIndexes
  import opened TextThread
  import opened Coupling
  import opened RoundCount
  import opened Compaction
  import opened Grammar

  /** List cells of positions whose pair is not recorded carry the null mark and no successor. */
  ghost predicate Loose(text: seq<int>, th: Thread, idx: Index, next: seq<int>, prev: seq<int>) {
    && |next| == |prev| == |text|
    && forall p {:trigger Starts(text, th, p)} :: Starts(text, th, p) && PairAt(text, th, p) !in idx ==>
         prev[p] == NULL_FREQ && next[p] == -1
  }

  ghost predicate Symbols(text: seq<int>, th: Thread, n: int) {
    |th.live| == |text| && forall p :: 0 <= p < |text| && th.live[p] ==> text[p] < n
  }

  /** No pair starts at the last cell. */
  ghost predicate Inside(owner: seq<int>) {
    forall x :: 0 <= x < |owner| && owner[x] >= 0 ==> x + 1 < |owner|
  }

  /** Outside `ex`, positions neither gained nor lost an owner, and those without one are as they were. */
  ghost predicate Framed(owner: seq<int>, next: seq<int>, prev: seq<int>, owner': seq<int>, next': seq<int>,
                         prev': seq<int>, ex: set<int>) {
    && |owner| == |next| == |prev| == |owner'| == |next'| == |prev'|
    && (forall x :: 0 <= x < |owner| && x !in ex ==> (owner'[x] < 0 <==> owner[x] < 0))
    && (forall x :: 0 <= x < |owner| && x !in ex && owner[x] < 0 ==> next'[x] == next[x] && prev'[x] == prev[x])
  }

  lemma OwnedBound(owner: seq<int>, p: int)
    requires Inside(owner) && 0 <= p && p + 1 < |owner| && owner[p] < 0
    ensures |Owned(owner)| + 2 <= |owner|
  {
    assert Owned(owner) <= Below(|owner| - 1) - {p};
    SubsetCard(Owned(owner), Below(|owner| - 1) - {p});
  }

  lemma SoundAt(text: seq<int>, th: Thread, idx: Index, n: int, pr: Pair, q: int)
    requires Coupled(text, th, idx, n) && In(idx, pr, q)
    ensures Starts(text, th, q) && PairAt(text, th, q) == pr
  {
  }

  lemma FramedTrans(o0: seq<int>, n0: seq<int>, p0: seq<int>, o1: seq<int>, n1: seq<int>, p1: seq<int>,
                    o2: seq<int>, n2: seq<int>, p2: seq<int>, ex: set<int>, ex': set<int>)
    requires Framed(o0, n0, p0, o1, n1, p1, ex) && Framed(o1, n1, p1, o2, n2, p2, ex') && ex <= ex'
    ensures Framed(o0, n0, p0, o2, n2, p2, ex')
  {
  }

  /** Positions whose pair is not recorded have no owner. */
  ghost predicate Unowned(text: seq<int>, th: Thread, idx: Index, owner: seq<int>) {
    && |owner| == |text|
    && forall x {:trigger Starts(text, th, x)} :: Starts(text, th, x) && PairAt(text, th, x) !in idx ==> owner[x] < 0
  }

  lemma StepLoose(text: seq<int>, th: Thread, idx: Index, p: int, n: int,
                  owner: seq<int>, next: seq<int>, prev: seq<int>, owner': seq<int>, next': seq<int>, prev': seq<int>)
    requires Ready(text, th, idx, p, n) && Loose(text, th, idx, next, prev) && Unowned(text, th, idx, owner)
    requires var w := SiteAt(text, th, p, n); Framed(owner, next, prev, owner', next', prev', {p, w.s, w.l})
    ensures var w := SiteAt(text, th, p, n);
            0 <= w.p < w.s < w.e <= |text| && Loose(NewText(text, w, n), NewThread(th, w), AfterLeft(idx, w), next',
                                                    prev')
  {
    SiteFacts(text, th, p, n);
    var w := SiteAt(text, th, p, n);
    var text', th', idx' := NewText(text, w, n), NewThread(th, w), AfterLeft(idx, w);
    forall x | Starts(text', th', x) && PairAt(text', th', x) !in idx' ensures prev'[x] == NULL_FREQ && next'[x] == -1 {
      StepLooseAt(text, th, idx, p, n, x);
    }
  }

  lemma StepLooseAt(text: seq<int>, th: Thread, idx: Index, p: int, n: int, x: int)
    requires Ready(text, th, idx, p, n)
    requires var w := SiteAt(text, th, p, n);
             && 0 <= w.p < w.s < w.e <= |text|
             && Starts(NewText(text, w, n), NewThread(th, w), x)
             && PairAt(NewText(text, w, n), NewThread(th, w), x) !in AfterLeft(idx, w)
    ensures var w := SiteAt(text, th, p, n);
            x != p && x != w.s && x != w.l && Starts(text, th, x) && PairAt(text, th, x) !in idx
  {
    SiteFacts(text, th, p, n);
    var w := SiteAt(text, th, p, n);
    StartsAfter(text, th, p, n, x);
    var pr := PairAt(NewText(text, w, n), NewThread(th, w), x);
    StepIn(text, th, idx, p, n, pr, x);
    hide Chained, SiteAt, NewText, NewThread, AfterLeft, Sound, Unique;
  }

  lemma StepSymbols(text: seq<int>, th: Thread, idx: Index, p: int, n: int)
    requires Ready(text, th, idx, p, n) && Symbols(text, th, n + 1)
    ensures var w := SiteAt(text, th, p, n);
            0 <= w.p < w.s < w.e <= |text| && Symbols(NewText(text, w, n), NewThread(th, w), n + 1)
  {
    SiteFacts(text, th, p, n);
    var w := SiteAt(text, th, p, n);
    forall q | 0 <= q < |text| && NewThread(th, w).live[q] ensures NewText(text, w, n)[q] < n + 1 {
      LiveAfter(text, th, p, n, q);
    }
  }

  /** Written out, the text is the same after the replacement, and one symbol shorter before. */
  lemma StepContent(text: seq<int>, th: Thread, p: int, n: int)
    requires Threads(text, th) && Starts(text, th, p) && !Mentions(PairAt(text, th, p), n) && n >= 0
    ensures var w := SiteAt(text, th, p, n);
            && 0 <= w.p < w.s < w.e <= |text| && Threads(NewText(text, w, n), NewThread(th, w))
            && Subst(Content(NewText(text, w, n), NewThread(th, w)), n, w.bc) == Subst(Content(text, th), n, w.bc)
            && |Content(NewText(text, w, n), NewThread(th, w))| == |Content(text, th)| - 1
  {
    SiteFacts(text, th, p, n);
    ReplacedThreads(text, th, p, n);
    hide Forward, Backward, NoneBetween, Gaps;
    FromReplaced(text, th, p, n, PairAt(text, th, p), 0);
  }

  /** Everything one replacement keeps. */
  lemma StepAll(text: seq<int>, th: Thread, idx: Index, p: int, n: int, start: set<Pair>, f: int,
                owner: seq<int>, next: seq<int>, prev: seq<int>, owner': seq<int>, next': seq<int>, prev': seq<int>)
    requires Threads(text, th) && Ready(text, th, idx, p, n) && n >= 0 && Symbols(text, th, n + 1)
    requires Scored(idx, start, PairAt(text, th, p), n) && Bounded(text, th, idx, PairAt(text, th, p), n, f)
    requires Loose(text, th, idx, next, prev) && Unowned(text, th, idx, owner)
    requires var w := SiteAt(text, th, p, n); Framed(owner, next, prev, owner', next', prev', {p, w.s, w.l})
    ensures var w := SiteAt(text, th, p, n);
            && 0 <= p == w.p < w.s < w.e <= |text| && w.bc == PairAt(text, th, p)
    ensures var w := SiteAt(text, th, p, n);
            var text', th', idx' := NewText(text, w, n), NewThread(th, w), AfterLeft(idx, w);
            && Threads(text', th') && Coupled(text', th', idx', n) && Symbols(text', th', n + 1)
            && Scored(idx', start, w.bc, n) && Bounded(text', th', idx', w.bc, n, f)
            && Loose(text', th', idx', next', prev')
            && w.bc in idx && w.bc in idx' && |idx'[w.bc]| < |idx[w.bc]|
            && Subst(Content(text', th'), n, w.bc) == Subst(Content(text, th), n, w.bc)
            && |Content(text', th')| == |Content(text, th)| - 1
  {
    hide Chained, Gaps, Coupled, SiteAt, Loose, Unowned, Symbols, Content, Framed, NewText, NewThread, AfterLeft, Score;
    SiteFacts(text, th, p, n);
    StepLoose(text, th, idx, p, n, owner, next, prev, owner', next', prev');
    StepSymbols(text, th, idx, p, n);
    StepContent(text, th, p, n);
    StepCoupled(text, th, idx, p, n);
    LeftScored(text, th, idx, p, n, start);
    StepBounded(text, th, idx, p, n, f);
  }

  lemma ReadyFacts(text: seq<int>, th: Thread, idx: Index, p: int, n: int)
    requires Ready(text, th, idx, p, n)
    ensures Starts(text, th, p) && |text| == |th.live| == |th.succ| == |th.pred|
    ensures var w := SiteAt(text, th, p, n);
            && 0 <= p == w.p < w.s < w.e <= |text| && w.s == th.succ[p] && th.live[p] && th.live[w.s]
            && w.e == th.succ[w.s]
            && w.bc == PairAt(text, th, p)
  {
    SiteFacts(text, th, p, n);
  }

  lemma ContentNonEmpty(text: seq<int>, th: Thread)
    requires Chained(th, |text|) && |text| > 0
    ensures |Content(text, th)| >= 1
  {
    hide Forward, Backward, NoneBetween;
  }

  lemma NoCount(text: seq<int>, th: Thread, bc: Pair)
    requires Chained(th, |text|) && Place(th, |text|, 0)
    requires forall p :: Starts(text, th, p) ==> PairAt(text, th, p) != bc
    ensures Count(Content(text, th), bc) == 0
  {
    OccCount(text, th, bc, 0);
    hide Chained;
    assert OccFrom(text, th, bc, 0) == {};
  }

  lemma StartPlace(th: Thread, u: int)
    requires Chained(th, u)
    ensures Place(th, u, 0)
  {
  }

  lemma RoundBoundAll(text: seq<int>, th: Thread, idx: Index, bc: Pair, n: int, f: int)
    requires Chained(th, |text|) && Coupled(text, th, idx, n) && Bounded(text, th, idx, bc, n, f)
    ensures forall x :: x in idx ==> |idx[x]| <= f
  {
    hide Chained, Bounded;
    forall x | x in idx ensures |idx[x]| <= f {
      RoundBound(text, th, idx, bc, n, f, x);
    }
  }

  lemma NotLast(text: seq<int>, th: Thread, x: int)
    requires Threads(text, th) && Starts(text, th, x)
    ensures x + 1 < |text|
  {
    ForwardAt(th, |text|, x);
  }

  lemma ReadyAt(text: seq<int>, th: Thread, idx: Index, bc: Pair, n: int, start: set<Pair>, p: int)
    requires Chained(th, |text|) && Coupled(text, th, idx, n) && Scored(idx, start, bc, n) && p in idx[bc]
    ensures Starts(text, th, p) && PairAt(text, th, p) == bc && Ready(text, th, idx, p, n) && !Mentions(bc, n)
  {
    hide Chained, Complete, Unique, NewRecorded, Score;
    assert In(idx, bc, p);
  }

  // ---------- beginning and end of a round ----------

  /** Positions whose pair is recorded have an owner. */
  ghost predicate Owning(text: seq<int>, th: Thread, idx: Index, owner: seq<int>) {
    && |owner| == |text|
    && forall x {:trigger Starts(text, th, x)} :: Starts(text, th, x) && PairAt(text, th, x) in idx ==> owner[x] >= 0
  }

  /** Positions without owner at the end either had none before, and are as they were, or were cut off. */
  ghost predicate Severed(owner: seq<int>, next: seq<int>, prev: seq<int>, owner': seq<int>, next': seq<int>,
                          prev': seq<int>) {
    && |owner| == |next| == |prev| == |owner'| == |next'| == |prev'|
    && forall x :: 0 <= x < |owner| && owner'[x] < 0 ==>
         if owner[x] < 0 then next'[x] == next[x] && prev'[x] == prev[x] else next'[x] == -1 && prev'[x] == NULL_FREQ
  }

  lemma EndLoose(text: seq<int>, th: Thread, idx: Index, idx': Index,
                 owner: seq<int>, next: seq<int>, prev: seq<int>, owner': seq<int>, next': seq<int>, prev': seq<int>)
    requires Loose(text, th, idx, next, prev) && Unowned(text, th, idx, owner) && Owning(text, th, idx, owner)
    requires Unowned(text, th, idx', owner') && Severed(owner, next, prev, owner', next', prev')
    ensures Loose(text, th, idx', next', prev')
  {
  }

  /** A recorded pair has as many positions as it occurs in the text; an unrecorded one occurs at most once. */
  lemma CountOf(text: seq<int>, th: Thread, idx: Index, n: int, x: Pair)
    requires Chained(th, |text|) && Coupled(text, th, idx, n) && Place(th, |text|, 0)
    ensures x in idx ==> |idx[x]| == Count(Content(text, th), x)
    ensures x !in idx ==> Count(Content(text, th), x) <= 1
  {
    OccCount(text, th, x, 0);
    var s := OccFrom(text, th, x, 0);
    if x in idx {
      assert forall p :: p in idx[x] ==> In(idx, x, p);
      assert idx[x] == s;
    } else if s != {} {
      var p := Pick(s);
      forall q | q in s ensures q == p {
      }
      SubsetCard(s, {p});
    }
  }

  lemma PairSymbols(text: seq<int>, th: Thread, n: int, p: int)
    requires Chained(th, |text|) && Symbols(text, th, n) && Starts(text, th, p)
    ensures PairAt(text, th, p).left < n && PairAt(text, th, p).right < n
  {
    ForwardAt(th, |text|, p);
  }

  ghost predicate Recurring(idx: Index) {
    forall x :: x in idx ==> |idx[x]| >= 2
  }

  lemma RoundStart(text: seq<int>, th: Thread, idx: Index, bc: Pair, n: int)
    requires Chained(th, |text|) && Coupled(text, th, idx, n) && Symbols(text, th, n) && Recurring(idx) && bc in idx
    requires forall x :: x in idx ==> |idx[x]| <= |idx[bc]|
    ensures Scored(idx, idx.Keys, bc, n) && Bounded(text, th, idx, bc, n, |idx[bc]|) && Symbols(text, th, n + 1)
  {
    forall x | x in idx ensures !Mentions(x, n) {
      var p := Pick(idx[x]);
      assert In(idx, x, p);
      PairSymbols(text, th, n, p);
    }
    assert News(text, th, n) == {};
  }

  /** Once its last occurrence is gone, the record of the round can go too. */
  lemma RoundEnd(text: seq<int>, th: Thread, idx: Index, bc: Pair, n: int)
    requires Chained(th, |text|) && Coupled(text, th, idx, n) && Symbols(text, th, n + 1) && bc in idx && idx[bc] == {}
    ensures Coupled(text, th, idx - {bc}, n + 1)
    ensures forall p :: Starts(text, th, p) ==> PairAt(text, th, p) != bc
  {
    var idx' := idx - {bc};
    forall p | Starts(text, th, p) ensures PairAt(text, th, p) != bc && !Mentions(PairAt(text, th, p), n + 1) {
      assert PairAt(text, th, p) == bc ==> In(idx, bc, p);
      PairSymbols(text, th, n + 1, p);
    }
    hide Chained;
    assert forall x, p :: In(idx', x, p) ==> In(idx, x, p);
    forall p | Starts(text, th, p) && PairAt(text, th, p) in idx' ensures In(idx', PairAt(text, th, p), p) {
      assert In(idx, PairAt(text, th, p), p);
    }
  }

  /** Dropping the pairs that occur once keeps the index coupled. */
  lemma PurgeCoupled(text: seq<int>, th: Thread, idx: Index, n: int)
    requires Chained(th, |text|) && Coupled(text, th, idx, n) && Symbols(text, th, n)
    ensures var idx' := map x | x in idx && |idx[x]| >= 2 :: idx[x]; Coupled(text, th, idx', n) && Recurring(idx')
  {
    var idx' := map x | x in idx && |idx[x]| >= 2 :: idx[x];
    forall p | Starts(text, th, p) ensures !Mentions(PairAt(text, th, p), n) {
      PairSymbols(text, th, n, p);
    }
    hide Chained;
    assert forall x, p :: In(idx', x, p) ==> In(idx, x, p);
    forall p | Starts(text, th, p) && PairAt(text, th, p) in idx' ensures In(idx', PairAt(text, th, p), p) {
      assert In(idx, PairAt(text, th, p), p);
    }
    forall p, q | Starts(text, th, p) && Starts(text, th, q) && p != q && PairAt(text, th, p) == PairAt(text, th, q)
      ensures PairAt(text, th, p) in idx'
    {
      var x := PairAt(text, th, p);
      assert In(idx, x, p) && In(idx, x, q);
      SubsetCard({p, q}, idx[x]);
    }
  }

  lemma LaysAt(text: seq<int>, th: Thread, at: seq<int>, m: int)
    requires Lays(th, |text|, at) && 0 <= m && m + 1 < |at|
    ensures m <= at[m] < at[m + 1] < |text| && |th.live| == |th.succ| == |text| && th.live[at[m]]
            && th.succ[at[m]] == at[m + 1]
    ensures Starts(text, th, at[m])
  {
    assert th.succ[at[m]] == at[m + 1];
  }

  lemma MovedStep(text: seq<int>, th: Thread, idx0: Index, n: int, at: seq<int>, m: int, idx: Index)
    requires Coupled(text, th, idx0, n) && Lays(th, |text|, at) && HalfMoved(idx0, at, m, idx) && m + 1 < |at|
    ensures at[m] != m ==> forall y :: !In(idx, y, m)
    ensures HalfMoved(idx0, at, m + 1, ShiftAll(idx, at[m], m))
  {
    hide Lays, HalfMoved;
    OneMoreMoved(text, th, idx0, at, m, idx);
  }

  /** A cell whose pair is not recorded is recorded nowhere, before or after its move. */
  lemma RecordedNowhere(text: seq<int>, th: Thread, idx0: Index, n: int, at: seq<int>, m: int, idx: Index, q: int,
                        p: int)
    requires Coupled(text, th, idx0, n) && HalfMoved(idx0, at, m, idx) && Starts(text, th, p)
    requires PairAt(text, th, p) !in idx0
    requires if q < m then 0 <= q && at[q] == p else q == p
    ensures forall x :: !In(idx, x, q)
  {
    forall x ensures !In(idx, x, q) {
      if In(idx0, x, p) {
        SoundAt(text, th, idx0, n, x, p);
      }
    }
  }

  lemma RecordedStill(text: seq<int>, th: Thread, idx0: Index, n: int, at: seq<int>, m: int, idx: Index)
    requires Coupled(text, th, idx0, n) && HalfMoved(idx0, at, m, idx) && Starts(text, th, at[m])
             && PairAt(text, th, at[m]) in idx0 && m <= at[m]
    ensures In(idx, PairAt(text, th, at[m]), at[m])
  {
    assert In(idx0, PairAt(text, th, at[m]), at[m]);
  }

  lemma SizesOf(text: seq<int>, th: Thread, idx0: Index, at: seq<int>, m: int, next: seq<int>, prev: seq<int>)
    requires HalfLoose(text, th, idx0, at, m, next, prev)
    ensures |next| == |prev| == |text|
  {
  }

  /** Everything the finished compaction keeps. */
  lemma CompactAll(text: seq<int>, th: Thread, idx0: Index, n: int, at: seq<int>, text': seq<int>, idx: Index,
                   next: seq<int>, prev: seq<int>)
    requires Threads(text, th) && Coupled(text, th, idx0, n) && Symbols(text, th, n) && Recurring(idx0)
    requires Lays(th, |text|, at) && 0 < |at| <= |text| && Content(text, th) == Gather(text, at)
    requires HalfMoved(idx0, at, |at| - 1, idx) && HalfLoose(text, th, idx0, at, |at| - 1, next, prev)
    requires |text'| == |at| && forall k :: 0 <= k < |at| ==> text'[k] == text[at[k]]
    ensures Threads(text', Flat(|at|)) && Content(text', Flat(|at|)) == Content(text, th)
    ensures Symbols(text', Flat(|at|), n)
    ensures Coupled(text', Flat(|at|), idx, n) && Recurring(idx)
    ensures forall x, p :: In(idx, x, p) ==> 0 <= p < |at| - 1
    ensures |next| == |prev| == |text| && Loose(text', Flat(|at|), idx, next[..|at|], prev[..|at|])
  {
    CompactCoupled(text, th, idx0, n, at, text', idx);
    AllLoose(text, th, idx0, n, at, text', idx, next, prev);
    CompactText(text, th, n, at, text');
    hide Chained, Gaps, Coupled, HalfMoved, Lays, Content, Starts;
    CountsKept(idx0, at, |at| - 1, idx);
  }

  lemma CompactText(text: seq<int>, th: Thread, n: int, at: seq<int>, text': seq<int>)
    requires Threads(text, th) && Symbols(text, th, n) && Lays(th, |text|, at) && Content(text, th) == Gather(text, at)
    requires |text'| == |at| && forall k :: 0 <= k < |at| ==> text'[k] == text[at[k]]
    ensures Threads(text', Flat(|at|)) && Content(text', Flat(|at|)) == Content(text, th)
    ensures Symbols(text', Flat(|at|), n)
  {
    hide Forward, Backward, NoneBetween;
    forall k | 0 <= k < |at| ensures 0 <= text'[k] < n {
      assert th.live[at[k]];
    }
    FlatThreads(text');
    FlatFrom(text', 0);
    assert text' == Gather(text, at);
  }

  lemma CountsKept(idx0: Index, at: seq<int>, m: int, idx: Index)
    requires HalfMoved(idx0, at, m, idx)
    ensures idx.Keys == idx0.Keys && forall x :: x in idx ==> |idx[x]| == |idx0[x]|
  {
  }

  lemma LaysIn(th: Thread, u: int, at: seq<int>, k: int)
    requires Lays(th, u, at) && 0 <= k < |at|
    ensures k <= at[k] < u
  {
  }

  lemma ContentSymbols(text: seq<int>, th: Thread, n: int)
    requires Threads(text, th) && Symbols(text, th, n)
    ensures forall i :: 0 <= i < |Content(text, th)| ==> 0 <= Content(text, th)[i] < n
  {
    var at := Layout(text, th);
    hide Forward, Backward, NoneBetween, Content;
    forall k | 0 <= k < |at| ensures 0 <= text[at[k]] < n {
      assert th.live[at[k]];
    }
  }

  lemma CountAll(text: seq<int>, th: Thread, idx: Index, n: int)
    requires Chained(th, |text|) && Coupled(text, th, idx, n)
    ensures forall x :: if x in idx then Count(Content(text, th), x) == |idx[x]| else Count(Content(text, th), x) <= 1
  {
    StartPlace(th, |text|);
    hide Chained, Coupled, Place, Content;
    forall x ensures if x in idx then Count(Content(text, th), x) == |idx[x]| else Count(Content(text, th), x) <= 1 {
      CountOf(text, th, idx, n, x);
    }
  }

  lemma RunStep(trace: seq<seq<int>>, rules: seq<Pair>, first: int, pr: Pair, t: seq<int>)
    requires Run(trace, rules, first) && Greedy(trace[|rules|], pr, first + |rules|, t)
    ensures Run(trace + [t], rules + [pr], first)
  {
    hide Greedy;
  }

  // ---------- building the index ----------

  /** Exactly the pairs that start before position `i` are recorded. */
  ghost predicate Prefix(text: seq<int>, idx: Index, i: int) {
    forall x, p {:trigger In(idx, x, p)} :: In(idx, x, p) <==>
             0 <= p < i && p + 1 < |text| && x == Pair(text[p], text[p + 1])
  }

  lemma PrefixStep(text: seq<int>, idx: Index, i: int)
    requires Prefix(text, idx, i) && 0 <= i && i + 1 < |text|
    ensures Prefix(text, Inserted(idx, Pair(text[i], text[i + 1]), i), i + 1)
  {
    hide In, Inserted;
    var pr := Pair(text[i], text[i + 1]);
    var idx' := Inserted(idx, pr, i);
    forall x, p ensures In(idx', x, p) <==> 0 <= p < i + 1 && p + 1 < |text| && x == Pair(text[p], text[p + 1]) {
      InsertedIn(idx, pr, i, x, p);
    }
  }

  lemma PrefixCoupled(text: seq<int>, idx: Index, i: int, n: int)
    requires Prefix(text, idx, i) && |text| <= i + 1 && forall p :: 0 <= p < |text| ==> 0 <= text[p] < n
    ensures Coupled(text, Flat(|text|), idx, n) && Symbols(text, Flat(|text|), n)
  {
    PrefixStarts(text, idx, i);
    hide Starts;
  }

  lemma PrefixStarts(text: seq<int>, idx: Index, i: int)
    requires Prefix(text, idx, i) && |text| <= i + 1
    ensures forall p :: Starts(text, Flat(|text|), p) ==>
              PairAt(text, Flat(|text|), p) in idx && In(idx, PairAt(text, Flat(|text|), p), p)
    ensures forall x, p :: In(idx, x, p) ==> Starts(text, Flat(|text|), p) && PairAt(text, Flat(|text|), p) == x
  {
    forall p | Starts(text, Flat(|text|), p) ensures In(idx, PairAt(text, Flat(|text|), p), p) {
      assert PairAt(text, Flat(|text|), p) == Pair(text[p], text[p + 1]);
    }
  }

  lemma PrefixLoose(text: seq<int>, idx: Index, i: int, next: seq<int>, prev: seq<int>)
    requires Prefix(text, idx, i) && |text| <= i + 1 && |next| == |prev| == |text|
    ensures Loose(text, Flat(|text|), idx, next, prev)
  {
    PrefixStarts(text, idx, i);
    hide Starts;
  }

  /** The pairs that occur in a text. */
  ghost function Pairs(t: seq<int>): (s: set<Pair>) {
    set p | 0 <= p < |t| - 1 :: PairFrom(t, p)
  }

  ghost function PairFrom(t: seq<int>, p: int): (x: Pair)
    requires 0 <= p < |t| - 1
  {
    Pair(t[p], t[p + 1])
  }

  /** A bound on the never-used cells of the hash table that building the index of `t` leaves. */
  ghost function Room(t: seq<int>): (n: int)
    ensures n >= 65536 && n >= 131072 - |t| && n >= |Pairs(t)|
  {
    var half := if |t| < 65536 then 131072 - |t| else 65536;
    if |Pairs(t)| > half then |Pairs(t)| else half
  }

  lemma InKeys(idx: Index, x: Pair, p: int)
    requires In(idx, x, p)
    ensures x in idx.Keys
  {
  }

  /** A round that is under way: some occurrences of a most frequent pair of `t` have given way to the symbol `n`. */
  ghost predicate Halfway(t: seq<int>, pr: Pair, n: int, t': seq<int>) {
    Favourite(t, pr) && (forall i :: 0 <= i < |t| ==> 0 <= t[i] < n) && Subst(t', n, pr) == t
  }

  /**
   A run on the text `inter` stops in the round of its last rule, at the text `t`.  By then so many symbols have been
   replaced, the one at which it stops included, that they may have used up the cells that building the index leaves.
   */
  ghost predicate Stalls(inter: seq<int>, alph: int, trace: seq<seq<int>>, rules: seq<Pair>, t: seq<int>) {
    && |rules| >= 1 && Run(trace, rules[..|rules| - 1], alph) && trace[0] == inter
    && Halfway(trace[|rules| - 1], rules[|rules| - 1], alph + |rules| - 1, t)
    && |t| <= |inter| && 2 * (|inter| - |t|) + 1 >= Room(inter)
  }

  /** A run can only stop like that after saving 32768 symbols, and half as many as there are pairs in the text. */
  lemma StallSaves(inter: seq<int>, alph: int, trace: seq<seq<int>>, rules: seq<Pair>, t: seq<int>)
    requires Stalls(inter, alph, trace, rules, t)
    ensures |inter| - |t| >= 32768 && 2 * (|inter| - |t|) + 1 >= |Pairs(inter)| && 3 * |inter| > 131072
    ensures exists x :: Count(inter, x) >= 2
  {
    hide Room, Subst, Count;
    NotAllGone(trace[|rules| - 1], rules[|rules| - 1], alph + |rules| - 1, t);
    var pr := rules[0];
    assert Count(inter, pr) >= 2 by {
      if |rules| >= 2 {
        assert Greedy(trace[0], rules[..|rules| - 1][0], alph + 0, trace[1]);
      }
    }
  }

  lemma NotAllGone(t: seq<int>, pr: Pair, n: int, t': seq<int>)
    requires Halfway(t, pr, n, t')
    ensures |t'| >= 1
  {
  }

  class Engine {
    var text: seq<int>
    var c: int
    var n: int
    var rule: seq<Pair>
    const index: PairIndex
    ghost var th: Thread

    ghost predicate Base(cur: int)
      reads this, index, index.rec, index.hash, index.heap
    {
      && index.Valid(cur)
      && |index.owner| == |text| <= MAX_INT && |text| <= index.heap.sqrtu * index.heap.sqrtu
      && Threads(text, th) && c == |Content(text, th)| && n >= 0
      && Loose(text, th, index.idx, index.next, index.prev)
    }

    /** Inside the round of record `oid`; `start` are the pairs recorded when it began, `f` its frequency then. */
    ghost predicate InRound(oid: int, start: set<Pair>, f: int)
      reads this, index, index.rec, index.hash, index.heap
    {
      && Base(oid) && 0 <= oid < |index.rec.pair| && oid < |start|
      && Coupled(text, th, index.idx, n) && Symbols(text, th, n + 1)
      && Scored(index.idx, start, index.rec.pair[oid], n)
      && Bounded(text, th, index.idx, index.rec.pair[oid], n, f)
    }

    /** Between two rounds: every recorded pair occurs at least twice, and none more often than the heap's bound. */
    ghost predicate Between()
      reads this, index, index.rec, index.hash, index.heap
    {
      && Base(-1) && Coupled(text, th, index.idx, n) && Symbols(text, th, n) && Recurring(index.idx)
      && (index.heap.max < index.heap.sqrtu ==> forall x :: x in index.idx ==> |index.idx[x]| <= index.heap.max)
    }

    /** The text that the array stands for. */
    ghost function View(): (t: seq<int>)
      reads this
    {
      if Chained(th, |text|) then Content(text, th) else []
    }

    /** The text as the caller gives it, and empty structures over it. */
    constructor (inter: seq<int>, alph: int)
      requires |inter| <= MAX_INT && 0 <= alph && forall p :: 0 <= p < |inter| ==> 0 <= inter[p] < alph
      ensures Indexing(0) && fresh(index) && fresh(index.rec) && fresh(index.hash) && fresh(index.heap)
      ensures text == inter && n == alph && rule == [] && |Spare(index.hash.table)| == 131072
    {
      hide Spare, Unmarked, Owned, PairIndex.Valid, Flat;
      text, c, n, rule := inter, |inter|, alph, [];
      index := new PairIndex(|inter|);
      th := Flat(|inter|);
      new;
      index.Sizes(-1);
    }

    /** While the index is built: exactly the pairs before position `i` are recorded, and nothing was deleted. */
    ghost predicate Indexing(i: int)
      reads this, index, index.rec, index.hash, index.heap
    {
      && index.Valid(-1) && |index.owner| == |text| == c <= MAX_INT && |text| <= index.heap.sqrtu * index.heap.sqrtu
      && n >= 0 && th == Flat(|text|) && (forall p :: 0 <= p < |text| ==> 0 <= text[p] < n)
      && 0 <= i && (i > 0 ==> i < |text|) && Prefix(text, index.idx, i) && index.heap.max == index.heap.sqrtu
      && Unmarked(index.hash.table) && |index.hash.table| >= 131072
    }

    /** Records the pair at position `i`.  The search ends whatever the text is, as nothing was deleted yet. */
    method IndexOne(i: int) returns (ok: bool)
      requires Indexing(i) && i + 1 < |text|
      modifies index, index.rec, index.hash, index.heap
      ensures ok && Indexing(i + 1) && |Spare(index.hash.table)| >= old(|Spare(index.hash.table)|) - 1
    {
      hide Spare, Unmarked, Owned, In, Inserted, Flat, PairIndex.Valid;
      index.SearchEnds(-1);
      PrefixOwned(i);
      index.Sizes(-1);
      PrefixStep(text, index.idx, i);
      ok := index.Add(i, Pair(text[i], text[i + 1]), -1);
    }

    lemma PrefixOwned(i: int)
      requires Indexing(i) && i < |text|
      ensures index.owner[i] < 0 && |Owned(index.owner)| <= i
    {
      hide PairIndex.Valid, Flat;
      index.NotOwned(-1, i);
      forall p | p in Owned(index.owner) ensures p in Below(i) {
        var pr := index.OwnerOf(-1, p);
        assert In(index.idx, pr, p);
      }
      SubsetCard(Owned(index.owner), Below(i));
    }

    /** Builds the index over the whole text and purges the pairs that occur only once. */
    method Prepare() returns (ok: bool)
      requires Indexing(0) && |Spare(index.hash.table)| == 131072
      modifies index, index.rec, index.hash, index.heap
      ensures ok && Between() && View() == text
      ensures |Spare(index.hash.table)| >= Room(text)
    {
      hide Spare, Unmarked, Chained, Gaps, Coupled, Loose, Symbols, Content, Recurring, Starts, Unowned, Owning, Prefix,
           Flat, PairIndex.Valid;
      var i := 0;
      while i < |text| - 1
        invariant 0 <= i && (i > 0 ==> i < |text|) && Indexing(i)
        invariant |Spare(index.hash.table)| >= 131072 - i
      {
        ok := IndexOne(i);
        i := i + 1;
      }
      ok := true;
      PrefixRoom(i);
      PrefixCoupled(text, index.idx, i, n);
      PrefixBase(i);
      Ownership(-1);
      ghost var idx0, owner0, next0, prev0 := index.idx, index.owner, index.next, index.prev;
      PurgeCoupled(text, th, index.idx, n);
      index.PurgeHeap();
      index.Sizes(-1);
      assert Severed(owner0, next0, prev0, index.owner, index.next, index.prev);
      UnownedOnly(-1);
      EndLoose(text, th, idx0, index.idx, owner0, next0, prev0, index.owner, index.next, index.prev);
    }

    /** What building the index leaves of the hash table. */
    lemma PrefixRoom(i: int)
      requires Indexing(i) && |text| <= i + 1 && |Spare(index.hash.table)| >= 131072 - |text|
      ensures |Spare(index.hash.table)| >= Room(text)
    {
      hide PairIndex.Valid, Flat, Spare, Unmarked, In;
      index.SearchEnds(-1);
      forall x | x in Pairs(text) ensures x in index.idx.Keys {
        var p :| 0 <= p < |text| - 1 && x == PairFrom(text, p);
        assert In(index.idx, x, p);
        InKeys(index.idx, x, p);
      }
      SubsetCard(Pairs(text), index.idx.Keys);
    }

    lemma PrefixBase(i: int)
      requires Indexing(i) && |text| <= i + 1
      ensures Base(-1) && Content(text, th) == text
    {
      hide PairIndex.Valid;
      index.Sizes(-1);
      FlatThreads(text);
      FlatFrom(text, 0);
      hide Chained, Gaps, Content;
      PrefixLoose(text, index.idx, i, index.next, index.prev);
    }

    /** What the right half needs: the pair `cd` is recorded at `s` or not at all, and no other record is moved. */
    lemma RightReady(oid: int, p: int, s: int, e: int, w: Site, idx0: Index, start: set<Pair>)
      requires Ready(text, th, idx0, p, n) && w == SiteAt(text, th, p, n) && w.HasRight() && w.s == s && w.e == e
      requires 0 <= oid < |index.rec.pair| && oid < |start| && index.rec.pair[oid] == w.bc
      requires Scored(idx0, start, w.bc, n)
      requires |index.owner| == |text| && index.idx == AfterFirst(idx0, w) && index.Valid(oid)
      ensures w.p == p < s < e < |text| && w.cd == Pair(text[s], text[e]) && w.nd == Pair(n, text[e])
      ensures if w.cd in index.idx then s in index.idx[w.cd] else index.owner[s] < 0
      ensures w.cd in index.idx && w.cd != w.bc && |index.idx[w.cd]| == 1 ==> oid != |index.rec.pair| - 1
      ensures w.nd != w.bc
    {
      hide Chained, Coupled, Scored, SiteAt, Removed, Inserted, PairIndex.Valid;
      SiteFacts(text, th, p, n);
      RightMember(text, th, idx0, p, n);
      index.Sizes(oid);
      if index.owner[s] >= 0 {
        var pr := index.OwnerOf(oid, s);
        RemovedIn(idx0, w.bc, p, w.bc, pr, s);
        SoundAt(text, th, idx0, n, pr, s);
      }
      if w.cd in index.idx && w.cd != w.bc && |index.idx[w.cd]| == 1 {
        FirstScored(text, th, idx0, p, n, start);
        Outnumbered(index.idx, start, w.bc, n, w.cd);
      }
    }

    /** The right half of a replacement: the pair `cd` at `s` gives way to the pair `nd` at `p`. */
    method RightHalf(oid: int, p: int, s: int, e: int, ghost w: Site, ghost idx0: Index,
                     ghost start: set<Pair>)
      returns (ok: bool)
      requires Ready(text, th, idx0, p, n) && w == SiteAt(text, th, p, n) && w.HasRight() && w.s == s && w.e == e
      requires 0 <= oid < |index.rec.pair| && oid < |start| && index.rec.pair[oid] == w.bc
      requires Scored(idx0, start, w.bc, n)
      requires |index.owner| == |index.next| == |index.prev| == |text| <= MAX_INT
               && |text| <= index.heap.sqrtu * index.heap.sqrtu
      requires Inside(index.owner) && 0 <= p < |index.owner| && index.owner[p] < 0
      requires index.idx == AfterFirst(idx0, w) && index.Valid(oid)
      modifies index, index.rec, index.hash, index.heap
      ensures old(Spare(index.hash.table) != {}) ==> ok
      ensures ok ==>
                index.Valid(oid) && 0 <= oid < |index.rec.pair| && index.rec.pair[oid] == w.bc
                && index.idx == AfterRight(idx0, w)
      ensures ok ==> index.heap.sqrtu == old(index.heap.sqrtu) && index.heap.max == old(index.heap.max)
      ensures ok ==> |Spare(index.hash.table)| >= old(|Spare(index.hash.table)|) - 1
      ensures ok ==>
                Framed(old(index.owner), old(index.next), old(index.prev), index.owner, index.next, index.prev, {p, s})
      ensures ok ==> Inside(index.owner)
      ensures !ok ==> Spare(index.hash.table) == {}
    {
      hide Chained, Coupled, Scored, SiteAt, Spare, Unmarked, Owned, Removed, Inserted, PairIndex.Valid;
      RightReady(oid, p, s, e, w, idx0, start);
      ok := index.Drop(s, Pair(text[s], text[e]), oid);
      if !ok { return; }
      index.Sizes(oid);
      OwnedBound(index.owner, p);
      ok := index.Add(p, Pair(n, text[e]), oid);
    }

    lemma LeftReady(oid: int, p: int, l: int, w: Site, idx0: Index, start: set<Pair>)
      requires Ready(text, th, idx0, p, n) && w == SiteAt(text, th, p, n) && w.HasLeft() && w.l == l
      requires 0 <= oid < |index.rec.pair| && oid < |start| && index.rec.pair[oid] == w.bc
      requires Scored(idx0, start, w.bc, n)
      requires |index.owner| == |text| && index.idx == AfterRight(idx0, w) && index.Valid(oid)
      ensures 0 <= l < p < |text| && w.ab == Pair(text[l], text[p]) && w.an == Pair(text[l], n)
      ensures if w.ab in index.idx then l in index.idx[w.ab] else index.owner[l] < 0
      ensures w.ab in index.idx && w.ab != w.bc && |index.idx[w.ab]| == 1 ==> oid != |index.rec.pair| - 1
      ensures w.an != w.bc
    {
      hide Chained, Coupled, Scored, SiteAt, Removed, Inserted, AfterRight, PairIndex.Valid;
      SiteFacts(text, th, p, n);
      LeftMember(text, th, idx0, p, n);
      index.Sizes(oid);
      if index.owner[l] >= 0 {
        var pr := index.OwnerOf(oid, l);
        RightIn(text, th, idx0, p, n, pr, l);
        SoundAt(text, th, idx0, n, pr, l);
      }
      if w.ab in index.idx && w.ab != w.bc && |index.idx[w.ab]| == 1 {
        RightScored(text, th, idx0, p, n, start);
        Outnumbered(index.idx, start, w.bc, n, w.ab);
      }
    }

    /** The left half: the pair `ab` at `l` gives way to the pair `an` there. */
    method LeftHalf(oid: int, p: int, l: int, ghost w: Site, ghost idx0: Index, ghost start: set<Pair>)
      returns (ok: bool)
      requires Ready(text, th, idx0, p, n) && w == SiteAt(text, th, p, n) && w.HasLeft() && w.l == l
      requires 0 <= oid < |index.rec.pair| && oid < |start| && index.rec.pair[oid] == w.bc
      requires Scored(idx0, start, w.bc, n)
      requires |index.owner| == |index.next| == |index.prev| == |text| <= MAX_INT
               && |text| <= index.heap.sqrtu * index.heap.sqrtu
      requires Inside(index.owner) && 0 <= l < p < |index.owner|
      requires index.idx == AfterRight(idx0, w) && index.Valid(oid)
      modifies index, index.rec, index.hash, index.heap
      ensures old(Spare(index.hash.table) != {}) ==> ok
      ensures ok ==>
                index.Valid(oid) && 0 <= oid < |index.rec.pair| && index.rec.pair[oid] == w.bc
                && index.idx == AfterLeft(idx0, w)
      ensures ok ==> index.heap.sqrtu == old(index.heap.sqrtu) && index.heap.max == old(index.heap.max)
      ensures ok ==> |Spare(index.hash.table)| >= old(|Spare(index.hash.table)|) - 1
      ensures ok ==>
                Framed(old(index.owner), old(index.next), old(index.prev), index.owner, index.next, index.prev, {l})
      ensures ok ==> Inside(index.owner)
      ensures !ok ==> Spare(index.hash.table) == {}
    {
      hide Chained, Coupled, Scored, SiteAt, Spare, Unmarked, Owned, Removed, Inserted, AfterRight, PairIndex.Valid;
      LeftReady(oid, p, l, w, idx0, start);
      ok := index.Drop(l, Pair(text[l], text[p]), oid);
      if !ok { return; }
      index.Sizes(oid);
      OwnedBound(index.owner, l);
      ok := index.Add(l, Pair(text[l], n), oid);
    }

    /** The index updates of one replacement at `p`. */
    method Rewire(oid: int, p: int, s: int, e: int, ghost w: Site, ghost idx0: Index,
                  ghost start: set<Pair>)
      returns (ok: bool)
      requires Threads(text, th)
      requires Ready(text, th, idx0, p, n) && w == SiteAt(text, th, p, n) && w.s == s && w.e == e
      requires 0 <= oid < |index.rec.pair| && oid < |start| && index.rec.pair[oid] == w.bc
      requires Scored(idx0, start, w.bc, n)
      requires |index.owner| == |index.next| == |index.prev| == |text| <= MAX_INT
               && |text| <= index.heap.sqrtu * index.heap.sqrtu
      requires Inside(index.owner) && 0 <= p < |index.owner| && index.owner[p] < 0
      requires index.idx == AfterFirst(idx0, w) && index.Valid(oid)
      modifies index, index.rec, index.hash, index.heap
      ensures old(|Spare(index.hash.table)|) >= 2 ==> ok
      ensures ok ==>
                index.Valid(oid) && 0 <= oid < |index.rec.pair| && index.rec.pair[oid] == w.bc
                && index.idx == AfterLeft(idx0, w)
      ensures ok ==> index.heap.sqrtu == old(index.heap.sqrtu) && index.heap.max == old(index.heap.max)
      ensures ok ==> |Spare(index.hash.table)| >= old(|Spare(index.hash.table)|) - 2
      ensures ok ==>
                Framed(old(index.owner), old(index.next), old(index.prev), index.owner, index.next, index.prev,
                       {p, s, w.l})
      ensures !ok ==> Spare(index.hash.table) == {}
    {
      hide Chained, Coupled, Scored, SiteAt, Spare, Owned, Removed, Inserted, AfterFirst, PairIndex.Valid;
      SiteFacts(text, th, p, n);
      ok := true;
      if e != |text| {
        ok := RightHalf(oid, p, s, e, w, idx0, start);
        if !ok { return; }
      }
      if p != 0 {
        BeforeIsPred(text, th, p);
        ok := LeftHalf(oid, p, Before(text, p), w, idx0, start);
      }
    }

    /** Facts about ownership that hold between replacements. */
    lemma Ownership(cur: int)
      requires Base(cur) && Coupled(text, th, index.idx, n)
      ensures Unowned(text, th, index.idx, index.owner) && Inside(index.owner)
      ensures Owning(text, th, index.idx, index.owner)
    {
      hide Threads, Content, Complete, Unique, NewRecorded, PairIndex.Valid;
      index.Sizes(cur);
      forall x | 0 <= x < |index.owner| && index.owner[x] >= 0
        ensures Starts(text, th, x) && PairAt(text, th, x) in index.idx && x + 1 < |index.owner|
      {
        var pr := index.OwnerOf(cur, x);
        assert In(index.idx, pr, x);
        NotLast(text, th, x);
      }
      OwningAll(cur);
    }

    lemma OwningAll(cur: int)
      requires Base(cur) && Coupled(text, th, index.idx, n)
      ensures Owning(text, th, index.idx, index.owner)
    {
      hide Threads, Content, Sound, Unique, NewRecorded, PairIndex.Valid;
      forall x | Starts(text, th, x) && PairAt(text, th, x) in index.idx ensures index.owner[x] >= 0 {
        assert In(index.idx, PairAt(text, th, x), x);
        index.Owns(cur, PairAt(text, th, x), x);
      }
    }

    /** Takes the first listed occurrence of the pair of record `oid` off its list. */
    method TakeFirst(oid: int, ghost start: set<Pair>, ghost f: int) returns (p: int, ghost w: Site)
      requires InRound(oid, start, f) && |index.rec.cpos| == |index.rec.pair| && index.rec.cpos[oid] != -1
      modifies index, index.rec`cpos
      ensures Ready(text, th, old(index.idx), p, n) && w == SiteAt(text, th, p, n)
      ensures 0 <= oid < |index.rec.pair| && w.bc == index.rec.pair[oid]
              && index.idx == AfterFirst(old(index.idx), w) && index.Valid(oid)
      ensures 0 <= p < |index.owner| == |index.next| == |index.prev| == |text| && index.owner[p] < 0
      ensures Inside(index.owner)
      ensures Framed(old(index.owner), old(index.next), old(index.prev), index.owner, index.next, index.prev, {p})
      ensures Unowned(text, th, old(index.idx), old(index.owner))
    {
      hide Chained, Gaps, Coupled, Scored, Bounded, SiteAt, Removed, Loose, Unowned, Symbols, Content, Ready,
           PairIndex.Valid;
      ghost var idx0, bc := index.idx, index.rec.pair[oid];
      Ownership(oid);
      p := index.PopFirst(oid);
      ReadyAt(text, th, idx0, bc, n, start, p);
      ReadyFacts(text, th, idx0, p, n);
      w := SiteAt(text, th, p, n);
    }

    /** Replaces the first listed occurrence of the pair of record `oid` by the symbol `n`. */
    method ReplaceOne(oid: int, ghost start: set<Pair>, ghost f: int) returns (ok: bool)
      requires InRound(oid, start, f) && |index.rec.cpos| == |index.rec.pair| && index.rec.cpos[oid] != -1
      modifies this`text, this`c, this`th, index, index.rec, index.hash, index.heap
      ensures old(|Spare(index.hash.table)|) >= 2 ==> ok
      ensures ok ==> InRound(oid, start, f) && index.rec.pair[oid] == old(index.rec.pair[oid]) && c == old(c) - 1
      ensures ok ==> var pr := index.rec.pair[oid]; pr in old(index.idx) && |index.idx[pr]| < |old(index.idx)[pr]|
      ensures ok ==> old(Chained(th, |text|))
      ensures ok ==> var pr := index.rec.pair[oid];
                     Subst(Content(text, th), n, pr) == Subst(old(Content(text, th)), n, pr)
      ensures ok ==>
                index.heap.sqrtu == old(index.heap.sqrtu) && index.heap.max == old(index.heap.max)
                && |text| == old(|text|)
      ensures ok ==> |Spare(index.hash.table)| >= old(|Spare(index.hash.table)|) - 2
      ensures !ok ==> text == old(text) && th == old(th) && c == old(c) && Spare(index.hash.table) == {}
    {
      hide Chained, Gaps, Coupled, Scored, Bounded, SiteAt, Spare, Loose, Unowned, Symbols, Content, Ready, Framed,
           Inside, Starts,
           AfterFirst, AfterLeft, PairIndex.Valid;
      ghost var idx0, owner0, next0, prev0 := index.idx, index.owner, index.next, index.prev;
      var p, w := TakeFirst(oid, start, f);
      ReadyFacts(text, th, idx0, p, n);
      AfterIsSucc(text, th, p);
      var s := After(text, p);
      AfterIsSucc(text, th, s);
      var e := After(text, s);
      ghost var owner1, next1, prev1 := index.owner, index.next, index.prev;
      ok := Rewire(oid, p, s, e, w, idx0, start);
      if !ok { return; }
      FramedTrans(owner0, next0, prev0, owner1, next1, prev1, index.owner, index.next, index.prev, {p}, {p, w.s, w.l});
      StepAll(text, th, idx0, p, n, start, f, owner0, next0, prev0, index.owner, index.next, index.prev);
      WriteHole(p, e);
      th := NewThread(th, w);
      c := c - 1;
    }

    /** Writes the new symbol and the pointers of the hole behind it. */
    method WriteHole(p: int, e: int)
      requires 0 <= p && p + 1 < |text| && p + 1 < e <= |text|
      modifies this`text
      ensures text == Replaced(old(text), p, e, n)
    {
      text := text[p := n];
      if e != |text| {
        text := text[e - 1 := -p - 1];
      }
      text := text[p + 1 := -e - 1];
    }

    /** The inner loop: replaces occurrences until the list of record `oid` is empty. */
    method ReplaceAll(oid: int, ghost start: set<Pair>, ghost f: int) returns (ok: bool)
      requires InRound(oid, start, f)
      modifies this`text, this`c, this`th, index, index.rec, index.hash, index.heap
      ensures old(|Spare(index.hash.table)|) >= 2 * old(c) ==> ok
      ensures ok ==>
                InRound(oid, start, f) && index.rec.pair[oid] == old(index.rec.pair[oid])
                && index.rec.pair[oid] in old(index.idx)
      ensures ok ==> index.idx[index.rec.pair[oid]] == {}
      ensures ok ==> c <= old(c) && (old(index.idx)[index.rec.pair[oid]] != {} ==> c < old(c))
      ensures ok ==> old(Chained(th, |text|))
      ensures ok ==> var pr := index.rec.pair[oid];
                     Subst(Content(text, th), n, pr) == Subst(old(Content(text, th)), n, pr)
      ensures ok ==>
                index.heap.sqrtu == old(index.heap.sqrtu) && index.heap.max == old(index.heap.max)
                && |text| == old(|text|)
      ensures ok ==> |Spare(index.hash.table)| >= old(|Spare(index.hash.table)|) - 2 * (old(c) - c)
      ensures !ok ==> old(|Spare(index.hash.table)|) <= 2 * (old(c) - c) + 1 && Spare(index.hash.table) == {}
      ensures !ok ==> Threads(text, th) && c == |Content(text, th)| && old(Chained(th, |text|))
      ensures !ok ==> var pr := old(index.rec.pair[oid]);
                      Subst(Content(text, th), n, pr) == Subst(old(Content(text, th)), n, pr)
    {
      hide Chained, Gaps, Coupled, Scored, Bounded, Spare, Loose, Symbols, Content, PairIndex.Valid;
      ok := true;
      ghost var bc := index.rec.pair[oid];
      index.Sizes(oid);
      index.HeadOf(oid, oid);
      while index.rec.cpos[oid] != -1
        invariant InRound(oid, start, f) && index.rec.pair[oid] == bc && bc in index.idx
                  && |index.rec.cpos| == |index.rec.pair|
        invariant index.rec.cpos[oid] == -1 <==> index.idx[bc] == {}
        invariant c <= old(c) && (index.idx[bc] == {} && old(index.idx)[bc] != {} ==> c < old(c))
        invariant |index.idx[bc]| < |old(index.idx)[bc]| ==> c < old(c)
        invariant Chained(th, |text|) && Subst(Content(text, th), n, bc) == Subst(old(Content(text, th)), n, bc)
        invariant index.heap.sqrtu == old(index.heap.sqrtu) && index.heap.max == old(index.heap.max)
        invariant |text| == old(|text|)
        invariant |Spare(index.hash.table)| >= old(|Spare(index.hash.table)|) - 2 * (old(c) - c)
        decreases |index.idx[bc]|
      {
        NonEmpty(oid, oid);
        ok := ReplaceOne(oid, start, f);
        if !ok { return; }
        index.Sizes(oid);
        index.HeadOf(oid, oid);
      }
    }

    lemma NonEmpty(cur: int, id: int)
      requires Base(cur) && 0 <= id < |index.rec.pair| && |index.rec.cpos| == |index.rec.pair|
      requires index.rec.cpos[id] != -1
      ensures c >= 1
    {
      hide Chained, Gaps, Loose, PairIndex.Valid;
      index.HeadOf(cur, id);
      ContentNonEmpty(text, th);
    }

    /** The end of a round: its record goes, the symbol counter moves on, and pairs that occur only once are purged. */
    method FinishRound(oid: int, ghost start: set<Pair>, ghost f: int)
      requires InRound(oid, start, f) && index.rec.pair[oid] in index.idx && index.idx[index.rec.pair[oid]] == {}
      requires index.heap.max < index.heap.sqrtu ==> index.heap.max == f
      modifies this`n, index, index.rec, index.hash, index.heap
      ensures Between() && n == old(n) + 1 && Place(th, |text|, 0)
      ensures Count(Content(text, th), old(index.rec.pair[oid])) == 0
      ensures |Spare(index.hash.table)| >= old(|Spare(index.hash.table)|)
      ensures index.heap.sqrtu == old(index.heap.sqrtu) && index.heap.max == old(index.heap.max)
    {
      hide Chained, Gaps, Coupled, Scored, Bounded, Spare, Loose, Symbols, Content, Unowned, Owning, Recurring, Place,
           PairIndex.Valid;
      ghost var idx0, owner0, next0, prev0 := index.idx, index.owner, index.next, index.prev;
      ghost var bc := index.rec.pair[oid];
      index.Sizes(oid);
      Ownership(oid);
      RoundBoundAll(text, th, idx0, bc, n, f);
      RoundEnd(text, th, idx0, bc, n);
      StartPlace(th, |text|);
      NoCount(text, th, bc);
      index.EndRound(oid);
      ghost var owner1, next1, prev1 := index.owner, index.next, index.prev;
      PurgeCoupled(text, th, index.idx, n + 1);
      n := n + 1;
      index.PurgeHeap();
      index.Sizes(-1);
      assert Severed(owner0, next0, prev0, index.owner, index.next, index.prev);
      UnownedOnly(-1);
      EndLoose(text, th, idx0, index.idx, owner0, next0, prev0, index.owner, index.next, index.prev);
    }

    lemma UnownedOnly(cur: int)
      requires index.Valid(cur) && |index.owner| == |text| && Coupled(text, th, index.idx, n)
      ensures Unowned(text, th, index.idx, index.owner)
    {
      hide Complete, Unique, NewRecorded, PairIndex.Valid;
      forall x | Starts(text, th, x) && index.owner[x] >= 0 ensures PairAt(text, th, x) in index.idx {
        var pr := index.OwnerOf(cur, x);
        assert In(index.idx, pr, x);
      }
    }

    /** The state of the compaction loop: `m` cells have moved to the front of the array, the rest is as it was. */
    ghost predicate Compacting(text0: seq<int>, th0: Thread, idx0: Index, at: seq<int>, m: int)
      reads this, index, index.rec, index.hash, index.heap
    {
      && 0 <= m < |at| <= |text0| == |text| && Lays(th0, |text0|, at)
      && (forall k :: 0 <= k < m ==> text[k] == text0[at[k]])
      && text[m..] == text0[m..]
      && index.Valid(-1) && |index.owner| == |text|
      && HalfMoved(idx0, at, m, index.idx)
      && HalfLoose(text0, th0, idx0, at, m, index.next, index.prev)
    }

    /** A list cell about to move that is on no list carries the null mark. */
    lemma HeadIsLoose(m: int, text0: seq<int>, th0: Thread, idx0: Index, at: seq<int>)
      requires Compacting(text0, th0, idx0, at, m) && m + 1 < |at| && Coupled(text0, th0, idx0, n)
               && 0 <= at[m] < |index.owner|
      requires index.owner[at[m]] < 0
      ensures |index.prev| == |index.next| == |text0| && index.prev[at[m]] == NULL_FREQ && index.next[at[m]] == -1
    {
      hide Coupled, HalfMoved, Lays, PairIndex.Valid;
      LaysAt(text0, th0, at, m);
      if PairAt(text0, th0, at[m]) in idx0 {
        RecordedStill(text0, th0, idx0, n, at, m, index.idx);
        index.Owns(-1, PairAt(text0, th0, at[m]), at[m]);
      }
    }

    /** One step of the compaction loop: cell `i` moves to place `m`. */
    method MoveDown(i: int, m: int, ghost text0: seq<int>, ghost th0: Thread, ghost idx0: Index, ghost at: seq<int>)
      requires Compacting(text0, th0, idx0, at, m) && m + 1 < |at| && i == at[m]
      requires Coupled(text0, th0, idx0, n)
      modifies this`text, index, index.rec`cpos
      ensures Compacting(text0, th0, idx0, at, m + 1)
    {
      hide Coupled, HalfLoose, HalfMoved, Lays, Starts, PairIndex.Valid;
      LaysAt(text0, th0, at, m);
      MovedStep(text0, th0, idx0, n, at, m, index.idx);
      index.Sizes(-1);
      if m != i { index.NotOwned(-1, m); }
      if index.owner[i] < 0 {
        HeadIsLoose(m, text0, th0, idx0, at);
      }
      ghost var next0, prev0 := index.next, index.prev;
      assert text[i] == text[m..][i - m] && text[m..][1..] == text0[m..][1..];
      text := text[m := text[i]];
      index.Relocate(i, m);
      LooseStep(m, text0, th0, idx0, at, next0, prev0);
    }

    lemma LooseStep(m: int, text0: seq<int>, th0: Thread, idx0: Index, at: seq<int>, next0: seq<int>, prev0: seq<int>)
      requires Lays(th0, |text0|, at) && 0 <= m && m + 1 < |at| && HalfLoose(text0, th0, idx0, at, m, next0, prev0)
      requires index.Valid(-1) && |index.owner| == |index.next| == |index.prev| == |text0|
      requires Coupled(text0, th0, idx0, n) && HalfMoved(idx0, at, m + 1, index.idx) && m <= at[m] < |text0|
      requires forall x :: 0 <= x < |index.owner| && index.owner[x] < 0 && (x != at[m] || at[m] == m) ==>
                 index.next[x] == next0[if x == m then at[m] else x]
                 && index.prev[x] == prev0[if x == m then at[m] else x]
      ensures HalfLoose(text0, th0, idx0, at, m + 1, index.next, index.prev)
    {
      hide Coupled, HalfLoose, HalfMoved, PairIndex.Valid;
      SizesOf(text0, th0, idx0, at, m, next0, prev0);
      LaysAt(text0, th0, at, m);
      forall x | Starts(text0, th0, x) && PairAt(text0, th0, x) !in idx0 && at[m + 1] <= x
        ensures index.next[x] == next0[x] && index.prev[x] == prev0[x]
      {
        RecordedNowhere(text0, th0, idx0, n, at, m + 1, index.idx, x, x);
        index.NotOwned(-1, x);
      }
      forall k | 0 <= k <= m && Starts(text0, th0, at[k]) && PairAt(text0, th0, at[k]) !in idx0
        ensures index.owner[k] < 0
      {
        RecordedNowhere(text0, th0, idx0, n, at, m + 1, index.idx, k, at[k]);
        index.NotOwned(-1, k);
      }
      OneMoreLoose(text0, th0, idx0, at, m, next0, prev0, index.next, index.prev);
    }

    lemma Beyond(k: int)
      requires index.Valid(-1) && 0 <= k && forall x, p :: In(index.idx, x, p) ==> 0 <= p < k
      ensures forall p :: k <= p < |index.owner| ==> index.owner[p] < 0
    {
      hide PairIndex.Valid;
      forall p | k <= p < |index.owner| ensures index.owner[p] < 0 {
        index.NotOwned(-1, p);
      }
    }

    /** One turn of the compaction loop: moves cell `i` to place `m` and finds the next live cell. */
    method Advance(i: int, m: int, ghost text0: seq<int>, ghost th0: Thread, ghost idx0: Index,
                   ghost at: seq<int>)
      returns (j: int)
      requires Compacting(text0, th0, idx0, at, m) && m + 1 < |at| && i == at[m]
      requires Coupled(text0, th0, idx0, n) && Threads(text0, th0)
      modifies this`text, index, index.rec`cpos
      ensures Compacting(text0, th0, idx0, at, m + 1) && j == at[m + 1]
    {
      hide Chained, Gaps, Coupled, HalfLoose, HalfMoved, Lays, Starts, PairIndex.Valid;
      LaysAt(text0, th0, at, m);
      AfterIsSucc(text0, th0, i);
      MoveDown(i, m, text0, th0, idx0, at);
      assert text[i + 1] == text[m + 1..][i - m];
      j := i + 1;
      if text[j] < 0 {
        j := -text[j] - 1;
      }
    }

    /** The compaction loop, which leaves the last cell to its caller. */
    method MoveAll(ghost at: seq<int>) returns (i: int)
      requires Between() && |text| > 0 && Lays(th, |text|, at) && |at| == c > 0 && at[0] == 0
      modifies this`text, index, index.rec`cpos
      ensures Compacting(old(text), th, old(index.idx), at, c - 1) && i == at[c - 1]
    {
      hide Chained, Gaps, Coupled, Loose, Symbols, Content, Recurring, Lays, HalfMoved, HalfLoose, Starts,
           PairIndex.Valid;
      ghost var text0, idx0 := text, index.idx;
      CompactStart(at);
      i := 0;
      var m := 0;
      while m < c - 1
        invariant 0 <= m <= c - 1 && i == at[m]
        invariant Compacting(text0, th, idx0, at, m)
      {
        i := Advance(i, m, text0, th, idx0, at);
        m := m + 1;
      }
    }

    /** Compaction: the live cells move to the front, and the text becomes an array without holes. */
    method Compact()
      requires Between() && |text| > 0
      modifies this`text, this`th, index, index.rec`cpos
      ensures Between() && |text| == c && th == Flat(c)
      ensures old(Chained(th, |text|)) && Content(text, th) == old(Content(text, th))
    {
      hide Chained, Gaps, Coupled, Loose, Symbols, Content, Recurring, Lays, HalfMoved, HalfLoose, Starts,
           PairIndex.Valid, Flat;
      ghost var text0, th0, idx0 := text, th, index.idx;
      ghost var at := Layout(text0, th0);
      var i := MoveAll(at);
      LaysIn(th0, |text0|, at, c - 1);
      assert text[i] == text[c - 1..][i - (c - 1)];
      text := text[c - 1 := text[i]];
      text := text[..c];
      CompactAll(text0, th0, idx0, n, at, text, index.idx, index.next, index.prev);
      CountsKept(idx0, at, c - 1, index.idx);
      Beyond(c);
      index.Truncate(c);
      th := Flat(c);
    }

    lemma CompactStart(at: seq<int>)
      requires Between() && Lays(th, |text|, at) && |at| > 0 && at[0] == 0
      ensures |at| <= |text| && Compacting(text, th, index.idx, at, 0)
    {
      hide PairIndex.Valid, Gaps;
      LaysIn(th, |text|, at, |at| - 1);
      NoneMoved(text, th, index.idx, at);
    }

    /** A round may begin: the pair of record `oid` is the most frequent one of the text. */
    lemma BeginRound(oid: int)
      requires Base(oid) && Coupled(text, th, index.idx, n) && Symbols(text, th, n) && Recurring(index.idx)
      requires 0 <= oid < |index.rec.pair| && index.rec.pair[oid] in index.idx
      requires forall x :: x in index.idx ==> |index.idx[x]| <= |index.idx[index.rec.pair[oid]]|
      ensures InRound(oid, index.idx.Keys, |index.idx[index.rec.pair[oid]]|)
      ensures Favourite(View(), index.rec.pair[oid]) && forall i :: 0 <= i < |View()| ==> 0 <= View()[i] < n
    {
      hide Chained, Gaps, Coupled, Loose, Symbols, Content, Starts, Scored, Bounded, PairIndex.Valid;
      index.Sizes(oid);
      RoundStart(text, th, index.idx, index.rec.pair[oid], n);
      CountAll(text, th, index.idx, n);
      ContentSymbols(text, th, n);
    }

    /** One round of the outer loop, once `oid` is off the heap. */
    method Replace(oid: int) returns (ok: bool)
      requires 0 <= oid < |index.rec.pair| && index.rec.pair[oid] in index.idx && index.idx[index.rec.pair[oid]] != {}
      requires InRound(oid, index.idx.Keys, |index.idx[index.rec.pair[oid]]|)
      requires index.heap.max < index.heap.sqrtu ==> index.heap.max == |index.idx[index.rec.pair[oid]]|
      modifies this`text, this`c, this`n, this`th, index, index.rec, index.hash, index.heap
      ensures old(|Spare(index.hash.table)|) >= 2 * old(c) ==> ok
      ensures ok ==> Between() && n == old(n) + 1 && c < old(c) && |text| <= old(|text|) && |text| <= 2 * c
      ensures ok ==>
                Subst(View(), old(n), old(index.rec.pair[oid])) == Subst(old(View()), old(n), old(index.rec.pair[oid]))
      ensures ok ==> Count(View(), old(index.rec.pair[oid])) == 0
      ensures ok ==> |Spare(index.hash.table)| >= old(|Spare(index.hash.table)|) - 2 * (old(c) - c)
      ensures !ok ==> old(|Spare(index.hash.table)|) <= 2 * (old(c) - c) + 1 && Spare(index.hash.table) == {}
      ensures !ok ==> Threads(text, th) && c == |View()| && n == old(n)
      ensures !ok ==>
                Subst(View(), n, old(index.rec.pair[oid])) == Subst(old(View()), n, old(index.rec.pair[oid]))
    {
      hide Chained, Gaps, Coupled, Loose, Symbols, Content, Recurring, Starts, Scored, Bounded, Spare, Place,
           PairIndex.Valid;
      ghost var start, f := index.idx.Keys, |index.idx[index.rec.pair[oid]]|;
      ok := ReplaceAll(oid, start, f);
      if !ok { return; }
      index.Sizes(oid);
      FinishRound(oid, start, f);
      if 2 * c < |text| {
        Compact();
      }
    }

    /** One turn of the outer loop; `more` is false when no pair is left to replace. */
    method Round() returns (more: bool, ok: bool)
      requires Between()
      modifies this, index, index.rec, index.hash, index.heap
      ensures old(|Spare(index.hash.table)|) >= 2 * old(c) ==> ok
      ensures ok && !more ==>
                View() == old(View()) && c == old(c) && n == old(n) && rule == old(rule) && text == old(text)
                && th == old(th)
      ensures ok && !more ==> Base(-1) && forall x :: Count(View(), x) <= 1
      ensures ok && more ==> Between() && n == old(n) + 1 && c < old(c) && |text| <= old(|text|) && |text| <= 2 * c
      ensures ok && more ==> |rule| == |old(rule)| + 1 && rule[..|old(rule)|] == old(rule)
      ensures ok && more ==> Greedy(old(View()), rule[|old(rule)|], old(n), View())
      ensures ok && more ==> |Spare(index.hash.table)| >= old(|Spare(index.hash.table)|) - 2 * (old(c) - c)
      ensures !ok ==> old(|Spare(index.hash.table)|) <= 2 * (old(c) - c) + 1 && Spare(index.hash.table) == {}
      ensures !ok ==> Threads(text, th) && c == |View()| && n == old(n)
      ensures !ok ==> |rule| == |old(rule)| + 1 && rule[..|old(rule)|] == old(rule)
      ensures !ok ==> Halfway(old(View()), rule[|old(rule)|], n, View())
    {
      hide Chained, Gaps, Coupled, Loose, Symbols, Content, Starts, Scored, Bounded, Spare, Count, Subst,
           PairIndex.Valid;
      ok := true;
      ghost var t := View();
      var oid := index.ExtractMax();
      index.Sizes(oid);
      more := oid != -1;
      if !more {
        CountAll(text, th, index.idx, n);
        return;
      }
      BeginRound(oid);
      ghost var bc := index.rec.pair[oid];
      rule := rule + [index.rec.pair[oid]];
      ok := Replace(oid);
      SubstFresh(t, old(n), bc);
    }

    /**
     The outer loop.  `trace` lists the texts between the rounds; `ok` is false when a hash search never ends.  The
     loop stops when no pair occurs twice, or when the symbol counter reaches the largest integer.
     */
    method Repair() returns (ok: bool, ghost trace: seq<seq<int>>)
      requires Between() && rule == []
      modifies this, index, index.rec, index.hash, index.heap
      ensures old(|Spare(index.hash.table)|) >= 2 * old(c) ==> ok
      ensures ok ==> Run(trace, rule, old(n)) && trace[0] == old(View()) && trace[|rule|] == View()
      ensures ok ==> Threads(text, th) && |rule| <= old(c) - c
      ensures ok && (old(n) + |rule| < MAX_INT || old(n) + old(c) <= MAX_INT) ==> forall x :: Count(View(), x) <= 1
      ensures !ok ==> old(|Spare(index.hash.table)|) <= 2 * (old(c) - c) + 1 && Spare(index.hash.table) == {}
      ensures !ok ==> Threads(text, th) && c == |View()|
      ensures !ok ==>
                && |rule| >= 1 && Run(trace, rule[..|rule| - 1], old(n)) && trace[0] == old(View())
                && Halfway(trace[|rule| - 1], rule[|rule| - 1], old(n) + |rule| - 1, View())
    {
      hide Chained, Gaps, Coupled, Loose, Symbols, Content, Spare, Count, Greedy, Recurring, PairIndex.Valid, Halfway;
      ok, trace := true, [View()];
      ghost var first := n;
      while n < MAX_INT
        invariant ok && Between() && n == first + |rule| && |rule| <= old(c) - c
        invariant Run(trace, rule, first) && trace[0] == old(View()) && trace[|rule|] == View()
        invariant |Spare(index.hash.table)| >= old(|Spare(index.hash.table)|) - 2 * (old(c) - c)
        decreases c
      {
        ghost var rule0 := rule;
        var more, done := Round();
        ok := done;
        if !ok {
          assert rule[..|rule| - 1] == rule0;
          return;
        }
        if !more { return; }
        RunStep(trace, rule0, first, rule[|rule0|], View());
        assert rule == rule0 + [rule[|rule0|]];
        trace := trace + [View()];
      }
      ViewSize();
    }

    lemma Full()
      requires Between()
      ensures c == |View()|
    {
    }

    lemma ViewSize()
      requires Between()
      ensures c >= 0 && (c == 0 ==> forall x :: Count(View(), x) == 0)
    {
    }
  }

  /**
   The whole run on a text over the symbols below `alph`: what is left of the array, the rules, and the texts between
   the rounds.  When a hash search never ends, these are the array and the rules at that moment.
   */
  method Compress(inter: seq<int>, alph: int)
    returns (ok: bool, text: seq<int>, rule: seq<Pair>, ghost th: Thread, ghost trace: seq<seq<int>>)
    requires |inter| <= MAX_INT && 0 <= alph && forall p :: 0 <= p < |inter| ==> 0 <= inter[p] < alph
    ensures 3 * |inter| <= 131072 ==> ok
    ensures ok ==> Run(trace, rule, alph) && trace[0] == inter
    ensures ok ==> Threads(text, th) && Content(text, th) == trace[|rule|]
    ensures ok && (alph + |rule| < MAX_INT || alph + |inter| <= MAX_INT) ==>
              forall x :: Count(trace[|rule|], x) <= 1
    ensures !ok ==> Threads(text, th) && Stalls(inter, alph, trace, rule, Content(text, th))
  {
    hide Chained, Gaps, Content, Spare, Count, Run, PairIndex.Valid, Room, Halfway;
    text, rule, th, trace := [], [], Flat(0), [];
    var engine := new Engine(inter, alph);
    ok := engine.Prepare();
    engine.Full();
    ok, trace := engine.Repair();
    text, rule, th := engine.text, engine.rule, engine.th;
  }
}
