/**
 How the pair index and the text agree, and what one replacement does to both.

 An index maps recorded pairs to position sets.  It is coupled to the text when each recorded pair has exactly the
 cells where it starts (overlapping occurrences included), every pair that starts in two places is recorded, and so
 is every pair with the symbol `n` of the current round.
 */
module Coupling {
  import opened RecordTable
  import opened TextThread
  import opened Cards
  import opened PairSets

  ghost predicate Sound(text: seq<int>, th: Thread, idx: Index) {
    forall pr, p {:trigger In(idx, pr, p)} :: In(idx, pr, p) ==> Starts(text, th, p) && PairAt(text, th, p) == pr
  }

  ghost predicate Complete(text: seq<int>, th: Thread, idx: Index) {
    forall p {:trigger Starts(text, th, p)} :: Starts(text, th, p) && PairAt(text, th, p) in idx ==>
             In(idx, PairAt(text, th, p), p)
  }

  ghost predicate Unique(text: seq<int>, th: Thread, idx: Index) {
    forall p, q {:trigger Starts(text, th, p), Starts(text, th, q)} ::
      Starts(text, th, p) && Starts(text, th, q) && p != q && PairAt(text, th, p) == PairAt(text, th, q) ==>
        PairAt(text, th, p) in idx
  }

  ghost predicate Mentions(pr: Pair, n: int) {
    pr.left == n || pr.right == n
  }

  ghost predicate NewRecorded(text: seq<int>, th: Thread, idx: Index, n: int) {
    forall p {:trigger Starts(text, th, p)} :: Starts(text, th, p) && Mentions(PairAt(text, th, p), n) ==>
             PairAt(text, th, p) in idx
  }

  ghost predicate Coupled(text: seq<int>, th: Thread, idx: Index, n: int) {
    Sound(text, th, idx) && Complete(text, th, idx) && Unique(text, th, idx) && NewRecorded(text, th, idx, n)
  }

  // ---------- one replacement ----------

  /** The cells and pairs of one replacement: `a b c d` becomes `a n d`, with b at `p`, c at `s`, d at `e`, a at `l`. */
  datatype Site = Site(p: int, s: int, e: int, l: int, u: int, bc: Pair, cd: Pair, nd: Pair, ab: Pair, an: Pair) {
    ghost predicate HasRight() { e < u }
    ghost predicate HasLeft() { p > 0 }
  }

  ghost function SiteAt(text: seq<int>, th: Thread, p: int, n: int): (r: Site) {
    if !(Chained(th, |text|) && Starts(text, th, p)) then
      var none := Pair(0, 0);
      Site(0, 0, 0, 0, 0, none, none, none, none, none)
    else
      ForwardAt(th, |text|, p);
      var s := th.succ[p];
      ForwardAt(th, |text|, s);
      var e := th.succ[s];
      var l := if p > 0 then (BackwardAt(th, |text|, p); th.pred[p]) else 0;
      var d := if e < |text| then text[e] else 0;
      Site(p, s, e, l, |text|, Pair(text[p], text[s]), Pair(text[s], d), Pair(n, d), Pair(text[l], text[p]),
           Pair(text[l], n))
  }

  lemma BackwardAt(th: Thread, u: int, p: int)
    requires Chained(th, u) && 0 < p < u && th.live[p]
    ensures 0 <= th.pred[p] < p && th.live[th.pred[p]] && th.succ[th.pred[p]] == p
  {
    hide Forward, NoneBetween;
  }

  ghost function AfterFirst(idx: Index, w: Site): (r: Index) {
    Removed(idx, w.bc, w.p, w.bc)
  }

  ghost function AfterRight(idx: Index, w: Site): (r: Index) {
    var i := AfterFirst(idx, w);
    if w.HasRight() then Inserted(Removed(i, w.cd, w.s, w.bc), w.nd, w.p) else i
  }

  ghost function AfterLeft(idx: Index, w: Site): (r: Index) {
    var i := AfterRight(idx, w);
    if w.HasLeft() then Inserted(Removed(i, w.ab, w.l, w.bc), w.an, w.l) else i
  }

  /** A site is ready when the pair at `p` is recorded and does not mention the new symbol `n`. */
  ghost predicate Ready(text: seq<int>, th: Thread, idx: Index, p: int, n: int) {
    && Chained(th, |text|) && Coupled(text, th, idx, n)
    && Starts(text, th, p) && In(idx, PairAt(text, th, p), p)
    && !Mentions(PairAt(text, th, p), n)
  }

  lemma SiteFacts(text: seq<int>, th: Thread, p: int, n: int)
    requires Chained(th, |text|) && Starts(text, th, p)
    ensures var w := SiteAt(text, th, p, n);
            && w.p == p && p < w.s < w.e <= w.u == |text| && w.s == th.succ[p] && th.live[w.s] && w.e == th.succ[w.s]
            && w.bc == PairAt(text, th, p)
            && (w.HasRight() ==> && Starts(text, th, w.s) && PairAt(text, th, w.s) == w.cd
                                 && th.live[w.e] && w.nd == Pair(n, text[w.e]))
            && (w.HasLeft() ==> && 0 <= w.l < p && Starts(text, th, w.l)
                                && PairAt(text, th, w.l) == w.ab && th.succ[w.l] == p
                                && w.l == th.pred[p] && w.an == Pair(text[w.l], n))
  {
    ForwardAt(th, |text|, p);
    ForwardAt(th, |text|, th.succ[p]);
    if p > 0 {
      BackwardAt(th, |text|, p);
    }
    hide Forward, Backward, NoneBetween;
  }

  /** The occurrence of `cd` is recorded if its pair is. */
  lemma RightMember(text: seq<int>, th: Thread, idx: Index, p: int, n: int)
    requires Ready(text, th, idx, p, n)
    ensures var w := SiteAt(text, th, p, n);
            w.HasRight() && w.cd in AfterFirst(idx, w) ==> w.s in AfterFirst(idx, w)[w.cd]
  {
    SiteFacts(text, th, p, n);
    hide Chained, SiteAt, Sound, Unique, NewRecorded;
    var w := SiteAt(text, th, p, n);
    if w.HasRight() && w.cd in AfterFirst(idx, w) {
      assert Starts(text, th, w.s);
      RemovedIn(idx, w.bc, w.p, w.bc, w.cd, w.s);
    }
  }

  /** Which occurrences the index holds after the right half of the replacement. */
  lemma RightIn(text: seq<int>, th: Thread, idx: Index, p: int, n: int, x: Pair, q: int)
    requires Ready(text, th, idx, p, n)
    ensures var w := SiteAt(text, th, p, n);
            In(AfterRight(idx, w), x, q) <==>
              || (In(idx, x, q) && !(x == w.bc && q == p) && !(w.HasRight() && x == w.cd && q == w.s))
              || (w.HasRight() && x == w.nd && q == p)
  {
    RightMember(text, th, idx, p, n);
    SiteFacts(text, th, p, n);
    hide Chained, SiteAt, Coupled;
    var w := SiteAt(text, th, p, n);
    RemovedIn(idx, w.bc, p, w.bc, x, q);
    if w.HasRight() {
      RemovedIn(AfterFirst(idx, w), w.cd, w.s, w.bc, x, q);
      InsertedIn(Removed(AfterFirst(idx, w), w.cd, w.s, w.bc), w.nd, p, x, q);
    }
  }

  lemma LeftMember(text: seq<int>, th: Thread, idx: Index, p: int, n: int)
    requires Ready(text, th, idx, p, n)
    ensures var w := SiteAt(text, th, p, n);
            w.HasLeft() && w.ab in AfterRight(idx, w) ==> w.l in AfterRight(idx, w)[w.ab]
  {
    SiteFacts(text, th, p, n);
    var w := SiteAt(text, th, p, n);
    if w.HasLeft() && w.ab in AfterRight(idx, w) {
      assert w.ab in idx by {
        hide Chained, SiteAt;
        assert Starts(text, th, w.l);
      }
      assert In(idx, w.ab, w.l) by {
        hide Chained, SiteAt;
        assert Starts(text, th, w.l);
      }
      RightIn(text, th, idx, p, n, w.ab, w.l);
    }
  }

  /** Which occurrences the index holds after the whole replacement. */
  lemma StepIn(text: seq<int>, th: Thread, idx: Index, p: int, n: int, x: Pair, q: int)
    requires Ready(text, th, idx, p, n)
    ensures var w := SiteAt(text, th, p, n);
            In(AfterLeft(idx, w), x, q) <==>
              || (In(idx, x, q) && !(x == w.bc && q == p) && !(w.HasRight() && x == w.cd && q == w.s)
                  && !(w.HasLeft() && x == w.ab && q == w.l))
              || (w.HasRight() && x == w.nd && q == p)
              || (w.HasLeft() && x == w.an && q == w.l)
  {
    LeftMember(text, th, idx, p, n);
    RightIn(text, th, idx, p, n, x, q);
    SiteFacts(text, th, p, n);
    hide Chained, SiteAt, Coupled, AfterRight;
    var w := SiteAt(text, th, p, n);
    if w.HasLeft() {
      RemovedIn(AfterRight(idx, w), w.ab, w.l, w.bc, x, q);
      InsertedIn(Removed(AfterRight(idx, w), w.ab, w.l, w.bc), w.an, w.l, x, q);
    }
  }

  /** Every recorded pair was recorded before or is one of the two new ones. */
  lemma StepKeys(text: seq<int>, th: Thread, idx: Index, p: int, n: int, x: Pair)
    requires Ready(text, th, idx, p, n)
    ensures var w := SiteAt(text, th, p, n);
            x in AfterLeft(idx, w) ==> x in idx || (w.HasRight() && x == w.nd) || (w.HasLeft() && x == w.an)
    ensures SiteAt(text, th, p, n).bc in AfterLeft(idx, SiteAt(text, th, p, n))
  {
    SiteFacts(text, th, p, n);
    hide Chained, SiteAt, Coupled;
  }

  ghost function NewText(text: seq<int>, w: Site, n: int): (r: seq<int>)
    requires 0 <= w.p < w.s < w.e <= |text|
  {
    Replaced(text, w.p, w.e, n)
  }

  ghost function NewThread(th: Thread, w: Site): (r: Thread)
    requires 0 <= w.p < w.s < |th.succ| == |th.live| == |th.pred|
  {
    Cut(th, w.p, w.s, w.e)
  }

  /** Live cells other than the replaced ones keep their symbol and their successor. */
  lemma LiveAfter(text: seq<int>, th: Thread, p: int, n: int, q: int)
    requires Chained(th, |text|) && Starts(text, th, p) && 0 <= q < |text|
    ensures var w := SiteAt(text, th, p, n);
            && 0 <= w.p < w.s < w.e <= |text|
            && NewThread(th, w).live[q] == (th.live[q] && q != w.s)
            && (th.live[q] && q != p && q != w.s ==>
                 NewText(text, w, n)[q] == text[q] && NewThread(th, w).succ[q] == th.succ[q])
            && NewText(text, w, n)[p] == n && NewThread(th, w).succ[p] == w.e
  {
    SiteFacts(text, th, p, n);
    var w := SiteAt(text, th, p, n);
    if th.live[q] && q != w.s {
      OutsideHole(th, |text|, p, q);
      ForwardAt(th, |text|, q);
    }
    hide Forward, Backward, NoneBetween;
  }

  /** Where pairs start after the replacement, and which. */
  lemma StartsAfter(text: seq<int>, th: Thread, p: int, n: int, q: int)
    requires Chained(th, |text|) && Starts(text, th, p)
    ensures var w := SiteAt(text, th, p, n);
            0 <= w.p < w.s < w.e <= |text| == w.u
    ensures var w := SiteAt(text, th, p, n);
            var text', th' := NewText(text, w, n), NewThread(th, w);
            && (q == p ==> (Starts(text', th', q) <==> w.HasRight()))
            && (q == p && w.HasRight() ==> PairAt(text', th', q) == w.nd)
            && (w.HasLeft() && q == w.l ==> Starts(text', th', q) && PairAt(text', th', q) == w.an)
            && (q == w.s ==> !Starts(text', th', q))
            && (q != p && q != w.s && !(w.HasLeft() && q == w.l) ==>
                  (Starts(text', th', q) <==> Starts(text, th, q)) && (Starts(text, th, q) ==>
                      PairAt(text', th', q) == PairAt(text, th, q)))
  {
    SiteFacts(text, th, p, n);
    var w := SiteAt(text, th, p, n);
    LiveAfter(text, th, p, n, p);
    if 0 <= q < |text| && th.live[q] {
      LiveAfter(text, th, p, n, q);
      ForwardAt(th, |text|, q);
      if th.succ[q] < |text| {
        LiveAfter(text, th, p, n, th.succ[q]);
      }
    } else if 0 <= q < |text| {
      LiveAfter(text, th, p, n, q);
    }
    if w.HasRight() {
      LiveAfter(text, th, p, n, w.e);
    }
    hide Chained, SiteAt, NewText;
  }

  lemma StepSound(text: seq<int>, th: Thread, idx: Index, p: int, n: int)
    requires Ready(text, th, idx, p, n)
    ensures var w := SiteAt(text, th, p, n);
            0 <= w.p < w.s < w.e <= |text| && Sound(NewText(text, w, n), NewThread(th, w), AfterLeft(idx, w))
  {
    SiteFacts(text, th, p, n);
    var w := SiteAt(text, th, p, n);
    forall x, q | In(AfterLeft(idx, w), x, q)
      ensures Starts(NewText(text, w, n), NewThread(th, w), q) && PairAt(NewText(text, w, n), NewThread(th, w), q) == x
    {
      StepIn(text, th, idx, p, n, x, q);
      StartsAfter(text, th, p, n, q);
      hide Chained, SiteAt, NewText, NewThread, AfterLeft, Complete, Unique, NewRecorded;
    }
  }

  lemma StepComplete(text: seq<int>, th: Thread, idx: Index, p: int, n: int, q: int)
    requires Ready(text, th, idx, p, n)
    requires var w := SiteAt(text, th, p, n);
             0 <= w.p < w.s < w.e <= |text| && Starts(NewText(text, w, n), NewThread(th, w), q)
    ensures var w := SiteAt(text, th, p, n);
            var x := PairAt(NewText(text, w, n), NewThread(th, w), q);
            x in AfterLeft(idx, w) || Mentions(x, n) ==> In(AfterLeft(idx, w), x, q)
  {
    SiteFacts(text, th, p, n);
    var w := SiteAt(text, th, p, n);
    var x := PairAt(NewText(text, w, n), NewThread(th, w), q);
    StartsAfter(text, th, p, n, q);
    StepIn(text, th, idx, p, n, x, q);
    StepKeys(text, th, idx, p, n, x);
    hide Chained, SiteAt, NewText, NewThread, AfterLeft, Sound, Unique;
  }

  lemma StepUnique(text: seq<int>, th: Thread, idx: Index, p: int, n: int, q: int, r: int)
    requires Ready(text, th, idx, p, n)
    requires var w := SiteAt(text, th, p, n);
             && 0 <= w.p < w.s < w.e <= |text|
             && Starts(NewText(text, w, n), NewThread(th, w), q) && Starts(NewText(text, w, n), NewThread(th, w), r)
             && q != r
             && PairAt(NewText(text, w, n), NewThread(th, w), q) == PairAt(NewText(text, w, n), NewThread(th, w), r)
    ensures var w := SiteAt(text, th, p, n);
            PairAt(NewText(text, w, n), NewThread(th, w), q) in AfterLeft(idx, w)
  {
    SiteFacts(text, th, p, n);
    var w := SiteAt(text, th, p, n);
    var x := PairAt(NewText(text, w, n), NewThread(th, w), q);
    StartsAfter(text, th, p, n, q);
    StartsAfter(text, th, p, n, r);
    StepIn(text, th, idx, p, n, x, q);
    StepComplete(text, th, idx, p, n, q);
    hide Chained, SiteAt, NewText, NewThread, AfterLeft, Sound, NewRecorded;
    if !Mentions(x, n) {
      assert Starts(text, th, q) && Starts(text, th, r);
      assert PairAt(text, th, q) in idx;
    }
  }

  lemma StepCoupled(text: seq<int>, th: Thread, idx: Index, p: int, n: int)
    requires Ready(text, th, idx, p, n)
    ensures var w := SiteAt(text, th, p, n);
            0 <= w.p < w.s < w.e <= |text| && Coupled(NewText(text, w, n), NewThread(th, w), AfterLeft(idx, w), n)
  {
    StepSound(text, th, idx, p, n);
    var w := SiteAt(text, th, p, n);
    var text', th', idx' := NewText(text, w, n), NewThread(th, w), AfterLeft(idx, w);
    hide SiteAt, NewText, NewThread, AfterLeft, Sound;
    forall q | Starts(text', th', q)
      ensures PairAt(text', th', q) in idx' || Mentions(PairAt(text', th', q), n) ==> In(idx', PairAt(text', th', q), q)
    {
      StepComplete(text, th, idx, p, n, q);
    }
    forall q, r | Starts(text', th', q) && Starts(text', th', r) && q != r
    && PairAt(text', th', q) == PairAt(text', th', r)
      ensures PairAt(text', th', q) in idx'
    {
      StepUnique(text, th, idx, p, n, q, r);
    }
  }
}
