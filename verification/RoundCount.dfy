/**
 Counting arguments about one replacement round.

 First, why the record of the round, off the heap but still in its row, is never the last record when another one is
 deleted: every pair recorded when the round began had at least two occurrences, an occurrence that disappears leaves
 one of a pair with the new symbol behind, so records deleted so far are outnumbered by records of new pairs.

 Second, why no pair becomes more frequent than the one being replaced: a new pair needs a new symbol, and there are
 no more of these than there were occurrences of the replaced pair.
 */
module RoundCount {
  import opened RecordTable
  import opened TextThread
  import opened Coupling
  import opened Cards
  import opened PairSets

  /** How many occurrences are recorded. */
  ghost function F(idx: Index, pr: Pair): (k: nat) {
    if pr in idx then |idx[pr]| else 0
  }

  /** Occurrences of `x` together with those its own have turned into, when `bc` is being replaced by `n`. */
  ghost function Score(idx: Index, x: Pair, bc: Pair, n: int): (k: nat) {
    var b, c := bc.left, bc.right;
    if x == Pair(c, b) then F(idx, x) + F(idx, Pair(n, b)) + F(idx, Pair(c, n)) + F(idx, Pair(n, n))
    else if x.left == c then F(idx, x) + F(idx, Pair(n, x.right))
    else if x.right == b then F(idx, x) + F(idx, Pair(x.left, n))
    else F(idx, x)
  }

  /** `start` are the pairs recorded when the round began. */
  ghost predicate Scored(idx: Index, start: set<Pair>, bc: Pair, n: int) {
    && bc in start && bc in idx && !Mentions(bc, n)
    && (forall x :: x in start ==> !Mentions(x, n))
    && (forall x :: x in start && x != bc ==> Score(idx, x, bc, n) >= 2)
  }

  /** The recorded pair that answers for `x` when `y` is about to be deleted. */
  ghost function Stand(idx: Index, bc: Pair, n: int, y: Pair, x: Pair): (r: Pair) {
    var b, c := bc.left, bc.right;
    if x in idx && x != y then x
    else if x == Pair(c, b) then
      if y != Pair(n, b) && F(idx, Pair(n, b)) >= 1 then Pair(n, b)
      else if y != Pair(c, n) && F(idx, Pair(c, n)) >= 1 then Pair(c, n)
      else Pair(n, n)
    else if x.left == c then Pair(n, x.right)
    else Pair(x.left, n)
  }

  lemma StandIsRecorded(idx: Index, start: set<Pair>, bc: Pair, n: int, y: Pair, x: Pair)
    requires Scored(idx, start, bc, n) && y in idx && y != bc && F(idx, y) == 1
    requires (y.left == bc.right || y.right == bc.left)
    requires x in start
    ensures Stand(idx, bc, n, y, x) in idx.Keys - {y}
  {
    if !(x in idx && x != y) {
      assert x != bc;
      assert Score(idx, x, bc, n) >= 2;
    }
  }

  lemma StandIsInjective(idx: Index, start: set<Pair>, bc: Pair, n: int, y: Pair, x: Pair, z: Pair)
    requires Scored(idx, start, bc, n) && y in idx && y != bc && F(idx, y) == 1
    requires (y.left == bc.right || y.right == bc.left)
    requires x in start && z in start && x != z
    ensures Stand(idx, bc, n, y, x) != Stand(idx, bc, n, y, z)
  {
    assert !Mentions(x, n) && !Mentions(z, n);
    if !(x in idx && x != y) {
      assert x != bc && Score(idx, x, bc, n) >= 2;
    }
    if !(z in idx && z != y) {
      assert z != bc && Score(idx, z, bc, n) >= 2;
    }
  }

  /** When a record with one occurrence left is to be deleted, more pairs are recorded than when the round began. */
  lemma Outnumbered(idx: Index, start: set<Pair>, bc: Pair, n: int, y: Pair)
    requires Scored(idx, start, bc, n) && y in idx && y != bc && F(idx, y) == 1
    requires (y.left == bc.right || y.right == bc.left)
    ensures |idx.Keys| > |start|
  {
    var m := map x | x in start :: Stand(idx, bc, n, y, x);
    assert m.Keys == start;
    forall x | x in m ensures m[x] in idx.Keys - {y} {
      StandIsRecorded(idx, start, bc, n, y, x);
    }
    forall x, z | x in m && z in m && x != z ensures m[x] != m[z] {
      StandIsInjective(idx, start, bc, n, y, x, z);
    }
    InjectionCard(m, idx.Keys - {y});
  }

  // ---------- the score never drops ----------

  lemma RemovedCount(idx: Index, pr: Pair, p: int, keep: Pair, x: Pair)
    requires pr in idx ==> p in idx[pr]
    ensures F(Removed(idx, pr, p, keep), x) == if x == pr && pr in idx then F(idx, x) - 1 else F(idx, x)
  {
  }

  lemma InsertedCount(idx: Index, pr: Pair, p: int, x: Pair)
    requires !In(idx, pr, p)
    ensures F(Inserted(idx, pr, p), x) == if x == pr then F(idx, x) + 1 else F(idx, x)
  {
  }

  /** Turning an occurrence of `cd` into one of `nd`. */
  lemma RightScore(idx: Index, idx': Index, bc: Pair, n: int, d: int, x: Pair)
    requires !Mentions(bc, n) && !Mentions(x, n) && x != bc
    requires var cd, nd := Pair(bc.right, d), Pair(n, d);
             && F(idx', cd) >= F(idx, cd) - 1 && F(idx', nd) >= F(idx, nd) + 1
             && forall z :: z != cd && z != nd ==> F(idx', z) >= F(idx, z)
    ensures Score(idx', x, bc, n) >= Score(idx, x, bc, n)
  {
  }

  /** Turning an occurrence of `ab` into one of `an`. */
  lemma LeftScore(idx: Index, idx': Index, bc: Pair, n: int, a: int, x: Pair)
    requires !Mentions(bc, n) && !Mentions(x, n) && x != bc
    requires var ab, an := Pair(a, bc.left), Pair(a, n);
             && F(idx', ab) >= F(idx, ab) - 1 && F(idx', an) >= F(idx, an) + 1
             && forall z :: z != ab && z != an ==> F(idx', z) >= F(idx, z)
    ensures Score(idx', x, bc, n) >= Score(idx, x, bc, n)
  {
  }

  lemma FirstScored(text: seq<int>, th: Thread, idx: Index, p: int, n: int, start: set<Pair>)
    requires Ready(text, th, idx, p, n) && Scored(idx, start, PairAt(text, th, p), n)
    ensures var w := SiteAt(text, th, p, n); w.bc == PairAt(text, th, p) && Scored(AfterFirst(idx, w), start, w.bc, n)
  {
    SiteFacts(text, th, p, n);
    hide Chained, Coupled, SiteAt;
    var w := SiteAt(text, th, p, n);
    forall x ensures F(AfterFirst(idx, w), x) == if x == w.bc then F(idx, x) - 1 else F(idx, x) {
      RemovedCount(idx, w.bc, p, w.bc, x);
    }
  }

  lemma RightScored(text: seq<int>, th: Thread, idx: Index, p: int, n: int, start: set<Pair>)
    requires Ready(text, th, idx, p, n) && Scored(idx, start, PairAt(text, th, p), n)
    ensures var w := SiteAt(text, th, p, n); w.bc == PairAt(text, th, p) && Scored(AfterRight(idx, w), start, w.bc, n)
  {
    SiteFacts(text, th, p, n);
    FirstScored(text, th, idx, p, n, start);
    RightMember(text, th, idx, p, n);
    var w := SiteAt(text, th, p, n);
    if w.HasRight() {
      var first := AfterFirst(idx, w);
      var mid := Removed(first, w.cd, w.s, w.bc);
      assert !In(mid, w.nd, p) by {
        RemovedIn(first, w.cd, w.s, w.bc, w.nd, p);
        RemovedIn(idx, w.bc, p, w.bc, w.nd, p);
      }
      hide Chained, Coupled, SiteAt, Ready, AfterFirst;
      forall x ensures F(mid, x) == if x == w.cd && w.cd in first then F(first, x) - 1 else F(first, x) {
        RemovedCount(first, w.cd, w.s, w.bc, x);
      }
      forall x ensures F(Inserted(mid, w.nd, p), x) == if x == w.nd then F(mid, x) + 1 else F(mid, x) {
        InsertedCount(mid, w.nd, p, x);
      }
      ScoreKept(first, Inserted(mid, w.nd, p), start, w.bc, n, w.nd.right, true);
    }
  }

  lemma ScoreKept(idx: Index, idx': Index, start: set<Pair>, bc: Pair, n: int, z: int, right: bool)
    requires Scored(idx, start, bc, n) && bc in idx'
    requires right ==> var cd, nd := Pair(bc.right, z), Pair(n, z);
             && F(idx', cd) >= F(idx, cd) - 1 && F(idx', nd) >= F(idx, nd) + 1
             && forall y :: y != cd && y != nd ==> F(idx', y) >= F(idx, y)
    requires !right ==> var ab, an := Pair(z, bc.left), Pair(z, n);
             && F(idx', ab) >= F(idx, ab) - 1 && F(idx', an) >= F(idx, an) + 1
             && forall y :: y != ab && y != an ==> F(idx', y) >= F(idx, y)
    ensures Scored(idx', start, bc, n)
  {
    forall x | x in start && x != bc ensures Score(idx', x, bc, n) >= 2 {
      if right {
        RightScore(idx, idx', bc, n, z, x);
      } else {
        LeftScore(idx, idx', bc, n, z, x);
      }
    }
  }

  lemma LeftScored(text: seq<int>, th: Thread, idx: Index, p: int, n: int, start: set<Pair>)
    requires Ready(text, th, idx, p, n) && Scored(idx, start, PairAt(text, th, p), n)
    ensures var w := SiteAt(text, th, p, n); w.bc == PairAt(text, th, p) && Scored(AfterLeft(idx, w), start, w.bc, n)
  {
    SiteFacts(text, th, p, n);
    RightScored(text, th, idx, p, n, start);
    LeftMember(text, th, idx, p, n);
    var w := SiteAt(text, th, p, n);
    if w.HasLeft() {
      var before := AfterRight(idx, w);
      var mid := Removed(before, w.ab, w.l, w.bc);
      assert !In(mid, w.an, w.l) by {
        RemovedIn(before, w.ab, w.l, w.bc, w.an, w.l);
        RightIn(text, th, idx, p, n, w.an, w.l);
      }
      hide Chained, Coupled, SiteAt, Ready, AfterRight;
      forall x ensures F(mid, x) == if x == w.ab && w.ab in before then F(before, x) - 1 else F(before, x) {
        RemovedCount(before, w.ab, w.l, w.bc, x);
      }
      forall x ensures F(Inserted(mid, w.an, w.l), x) == if x == w.an then F(mid, x) + 1 else F(mid, x) {
        InsertedCount(mid, w.an, w.l, x);
      }
      ScoreKept(before, Inserted(mid, w.an, w.l), start, w.bc, n, w.an.left, false);
    }
  }

  // ---------- no pair overtakes the replaced one ----------

  /** The cells that hold the new symbol. */
  ghost function News(text: seq<int>, th: Thread, n: int): (s: set<int>) {
    set p | 0 <= p < |text| && p < |th.live| && th.live[p] && text[p] == n
  }

  /** With `f` occurrences of `bc` at the start, occurrences left and new symbols together stay within `f`, and so
      does every pair without the new symbol. */
  ghost predicate Bounded(text: seq<int>, th: Thread, idx: Index, bc: Pair, n: int, f: int) {
    && bc in idx && |News(text, th, n)| + |idx[bc]| <= f
    && forall x :: x in idx && !Mentions(x, n) ==> |idx[x]| <= f
  }

  lemma StepBounded(text: seq<int>, th: Thread, idx: Index, p: int, n: int, f: int)
    requires Ready(text, th, idx, p, n) && Bounded(text, th, idx, PairAt(text, th, p), n, f)
    ensures var w := SiteAt(text, th, p, n);
            && 0 <= w.p < w.s < w.e <= |text|
            && Bounded(NewText(text, w, n), NewThread(th, w), AfterLeft(idx, w), w.bc, n, f)
            && |AfterLeft(idx, w)[w.bc]| < |idx[w.bc]|
  {
    SiteFacts(text, th, p, n);
    var w := SiteAt(text, th, p, n);
    var idx' := AfterLeft(idx, w);
    StepNews(text, th, idx, p, n);
    forall x | x in idx' && !Mentions(x, n) ensures x in idx && idx'[x] <= idx[x] {
      StepKeys(text, th, idx, p, n, x);
      forall q | q in idx'[x] ensures q in idx[x] {
        StepIn(text, th, idx, p, n, x, q);
      }
    }
    StepKeys(text, th, idx, p, n, w.bc);
    StepIn(text, th, idx, p, n, w.bc, p);
    hide Chained, Coupled, SiteAt, AfterLeft, NewText, NewThread, News;
    assert idx'[w.bc] <= idx[w.bc] - {p};
    SubsetCard(idx'[w.bc], idx[w.bc] - {p});
    forall x | x in idx' && !Mentions(x, n) ensures |idx'[x]| <= f {
      SubsetCard(idx'[x], idx[x]);
    }
  }

  lemma StepNews(text: seq<int>, th: Thread, idx: Index, p: int, n: int)
    requires Ready(text, th, idx, p, n)
    ensures var w := SiteAt(text, th, p, n);
            0 <= w.p < w.s < w.e <= |text| && |News(NewText(text, w, n), NewThread(th, w), n)| == |News(text, th, n)|
              + 1
  {
    SiteFacts(text, th, p, n);
    var w := SiteAt(text, th, p, n);
    var text', th' := NewText(text, w, n), NewThread(th, w);
    forall q | 0 <= q < |text| ensures q in News(text', th', n) <==> q in News(text, th, n) || q == p {
      LiveAfter(text, th, p, n, q);
    }
    assert News(text', th', n) == News(text, th, n) + {p};
  }

  /** A pair with the new symbol has no more occurrences than there are new symbols. */
  lemma NewBound(text: seq<int>, th: Thread, idx: Index, n: int, x: Pair)
    requires Chained(th, |text|) && Sound(text, th, idx) && x in idx && Mentions(x, n)
    ensures |idx[x]| <= |News(text, th, n)|
  {
    var s := idx[x];
    forall p | p in s ensures Starts(text, th, p) && PairAt(text, th, p) == x {
      assert In(idx, x, p);
    }
    if x.left == n {
      assert s <= News(text, th, n);
      SubsetCard(s, News(text, th, n));
    } else {
      var m := map p | p in s :: if Starts(text, th, p) then th.succ[p] else p;
      assert m.Keys == s;
      forall p | p in m ensures m[p] in News(text, th, n) && th.pred[m[p]] == p {
        ForwardAt(th, |text|, p);
      }
      hide Chained, Sound;
      InjectionCard(m, News(text, th, n));
    }
  }

  /** At the end of the round no recorded pair has more than `f` occurrences. */
  lemma RoundBound(text: seq<int>, th: Thread, idx: Index, bc: Pair, n: int, f: int, x: Pair)
    requires Chained(th, |text|) && Sound(text, th, idx) && Bounded(text, th, idx, bc, n, f) && x in idx
    ensures |idx[x]| <= f
  {
    if Mentions(x, n) {
      NewBound(text, th, idx, n, x);
    }
  }
}
