/**
 The gap-threaded text.

 Replacing a pair leaves a hole behind its first symbol.  The first cell of a hole holds a pointer to the next
 live cell and the last one a pointer back to the previous live cell, both written as -position-1; a hole of one
 cell keeps only the forward pointer.  `live`, `succ` and `pred` describe which cells are live and how they follow
 each other; the text that the array stands for is read off along `succ`.
 */
module TextThread {
  import opened RecordTable

  datatype Thread = Thread(live: seq<bool>, succ: seq<int>, pred: seq<int>)

  ghost predicate Forward(th: Thread, u: int)
    requires |th.live| == |th.succ| == |th.pred| == u
  {
    forall p {:trigger th.succ[p]} :: 0 <= p < u && th.live[p] ==>
      p < th.succ[p] <= u && (th.succ[p] < u ==> th.live[th.succ[p]] && th.pred[th.succ[p]] == p)
  }

  ghost predicate Backward(th: Thread, u: int)
    requires |th.live| == |th.succ| == |th.pred| == u
  {
    forall p {:trigger th.pred[p]} :: 0 < p < u && th.live[p] ==>
      0 <= th.pred[p] < p && th.live[th.pred[p]] && th.succ[th.pred[p]] == p
  }

  ghost predicate NoneBetween(th: Thread, u: int)
    requires |th.live| == |th.succ| == |th.pred| == u
  {
    forall p, q {:trigger th.succ[p], th.live[q]} :: 0 <= p < u && th.live[p] && p < q < th.succ[p] && q < u ==>
             !th.live[q]
  }

  /** Live cells form one increasing chain from 0; `u` stands for the end. */
  ghost predicate Chained(th: Thread, u: int) {
    && |th.live| == |th.succ| == |th.pred| == u
    && (u > 0 ==> th.live[0])
    && Forward(th, u) && Backward(th, u) && NoneBetween(th, u)
  }

  /** The cells of every hole carry the pointers the code reads. */
  ghost predicate Gaps(text: seq<int>, th: Thread)
    requires Chained(th, |text|)
  {
    && (forall p {:trigger th.live[p]} :: 0 <= p < |text| && th.live[p] ==> text[p] >= 0)
    && (forall p {:trigger th.succ[p]} :: 0 <= p < |text| && th.live[p] && p + 1 < th.succ[p] ==>
         text[p + 1] == -th.succ[p] - 1)
    && (forall p {:trigger th.succ[p]} :: 0 <= p < |text| && th.live[p] && p + 2 < th.succ[p] < |text| ==>
         text[th.succ[p] - 1] == -p - 1)
  }

  ghost predicate Threads(text: seq<int>, th: Thread) {
    Chained(th, |text|) && Gaps(text, th)
  }

  // ---------- reading the pointers ----------

  /** The cell after `p` as the code finds it: through the forward pointer if `p + 1` is a hole. */
  function After(text: seq<int>, p: int): (q: int)
    requires 0 <= p < |text|
  {
    if p + 1 < |text| && text[p + 1] < 0 then -text[p + 1] - 1 else p + 1
  }

  /** The cell before `p` as the code finds it: a pointer to `p` itself means a hole of one cell. */
  function Before(text: seq<int>, p: int): (q: int)
    requires 0 < p < |text|
  {
    if text[p - 1] < 0 then (if -text[p - 1] - 1 == p then p - 2 else -text[p - 1] - 1) else p - 1
  }

  lemma AfterIsSucc(text: seq<int>, th: Thread, p: int)
    requires Threads(text, th) && 0 <= p < |text| && th.live[p]
    ensures After(text, p) == th.succ[p]
  {
    if th.succ[p] == p + 1 && p + 1 < |text| {
      assert th.live[th.succ[p]];
    }
  }

  lemma BeforeIsPred(text: seq<int>, th: Thread, p: int)
    requires Threads(text, th) && 0 < p < |text| && th.live[p]
    ensures Before(text, p) == th.pred[p]
  {
    var q := th.pred[p];
    assert th.succ[q] == p;
    if q == p - 1 {
      assert th.live[q];
    }
  }

  // ---------- replacing a pair ----------

  /** The array once the pair at `p` has been replaced by `n`: `s` was the second cell, `e` the one after it. */
  function Replaced(text: seq<int>, p: int, e: int, n: int): (r: seq<int>)
    requires 0 <= p && p + 1 < |text| && p + 1 < e <= |text|
    ensures |r| == |text|
  {
    var t := text[p := n];
    (if e != |text| then t[e - 1 := -p - 1] else t)[p + 1 := -e - 1]
  }

  ghost function Cut(th: Thread, p: int, s: int, e: int): (r: Thread)
    requires 0 <= p < |th.succ| == |th.live| == |th.pred| && 0 <= s < |th.live|
  {
    Thread(th.live[s := false], th.succ[p := e], if 0 <= e < |th.pred| then th.pred[e := p] else th.pred)
  }

  lemma CutForward(th: Thread, u: int, p: int)
    requires Chained(th, u) && 0 <= p < u && th.live[p] && th.succ[p] < u
    ensures Forward(Cut(th, p, th.succ[p], th.succ[th.succ[p]]), u)
  {
    hide NoneBetween;
    var s := th.succ[p];
    assert th.pred[s] == p && th.succ[s] > s;
  }

  lemma CutBackward(th: Thread, u: int, p: int)
    requires Chained(th, u) && 0 <= p < u && th.live[p] && th.succ[p] < u
    ensures Backward(Cut(th, p, th.succ[p], th.succ[th.succ[p]]), u)
  {
    hide NoneBetween;
    var s := th.succ[p];
    assert th.pred[s] == p && th.succ[s] > s;
  }

  lemma CutBetween(th: Thread, u: int, p: int)
    requires Chained(th, u) && 0 <= p < u && th.live[p] && th.succ[p] < u
    ensures NoneBetween(Cut(th, p, th.succ[p], th.succ[th.succ[p]]), u)
  {
    hide Backward;
    var s := th.succ[p];
    var e := th.succ[s];
    var th' := Cut(th, p, s, e);
    forall x, q | 0 <= x < u && th'.live[x] && x < q < th'.succ[x] && q < u ensures !th'.live[q] {
      assert x != p ==> th'.succ[x] == th.succ[x];
      assert x == p ==> q < s || q == s || s < q < e;
    }
  }

  lemma CutChained(th: Thread, u: int, p: int)
    requires Chained(th, u) && 0 <= p < u && th.live[p] && th.succ[p] < u
    ensures p < th.succ[p] < th.succ[th.succ[p]] <= u
    ensures Chained(Cut(th, p, th.succ[p], th.succ[th.succ[p]]), u)
  {
    CutForward(th, u, p);
    CutBackward(th, u, p);
    CutBetween(th, u, p);
    hide Backward, NoneBetween;
    assert th.succ[th.succ[p]] <= u;
  }

  lemma ReplacedThreads(text: seq<int>, th: Thread, p: int, n: int)
    requires Threads(text, th) && 0 <= p < |text| && th.live[p] && th.succ[p] < |text| && n >= 0
    ensures var s := th.succ[p];
            var e := th.succ[s];
            p + 1 < e <= |text| && Threads(Replaced(text, p, e, n), Cut(th, p, s, e))
  {
    CutChained(th, |text|, p);
    hide Forward, Backward, NoneBetween;
    ReplacedGaps(text, th, p, n);
  }

  lemma ReplacedGaps(text: seq<int>, th: Thread, p: int, n: int)
    requires Threads(text, th) && 0 <= p < |text| && th.live[p] && th.succ[p] < |text| && n >= 0
    requires var s := th.succ[p]; p < s < th.succ[s] <= |text| && Chained(Cut(th, p, s, th.succ[s]), |text|)
    ensures var s := th.succ[p]; Gaps(Replaced(text, p, th.succ[s], n), Cut(th, p, s, th.succ[s]))
  {
    hide Backward, NoneBetween, Forward;
    var s := th.succ[p];
    var e := th.succ[s];
    var th', text' := Cut(th, p, s, e), Replaced(text, p, e, n);
    forall x | 0 <= x < |text| && th'.live[x]
      ensures text'[x] >= 0
      ensures x + 1 < th'.succ[x] && x + 1 < |text| ==> text'[x + 1] == -th'.succ[x] - 1
      ensures x + 2 < th'.succ[x] < |text| ==> text'[th'.succ[x] - 1] == -x - 1
    {
      OutsideHole(th, |text|, p, x);
      ForwardAt(th, |text|, x);
      assert x != p ==> th'.succ[x] == th.succ[x];
    }
    forall x | 0 <= x < |text| && th'.live[x] ensures th'.succ[x] <= |text| {
      ForwardAt(th', |text|, x);
    }
  }

  lemma ForwardAt(th: Thread, u: int, p: int)
    requires Chained(th, u) && 0 <= p < u && th.live[p]
    ensures p < th.succ[p] <= u && (th.succ[p] < u ==> th.live[th.succ[p]] && th.pred[th.succ[p]] == p)
  {
    hide Backward, NoneBetween;
  }

  /** Cells of other holes are not touched: they end at or before `p` or start at or after the cell after the pair. */
  lemma OutsideHole(th: Thread, u: int, p: int, x: int)
    requires Chained(th, u) && 0 <= p < u && th.live[p] && th.succ[p] < u
    requires 0 <= x < u && th.live[x] && x != th.succ[p]
    ensures var e := th.succ[th.succ[p]]; x == p || x >= e || th.succ[x] <= p
  {
    var s := th.succ[p];
    assert th.succ[s] <= u;
    if x < p {
      assert th.succ[x] <= p;
    } else if x > p {
      assert !(p < x < s) && !(s < x < th.succ[s]);
    }
  }

  // ---------- the text the array stands for ----------

  ghost predicate Place(th: Thread, u: int, p: int) {
    |th.live| == u && (p == u || (0 <= p < u && th.live[p]))
  }

  /** The symbols from cell `p` on. */
  ghost function From(text: seq<int>, th: Thread, p: int): (r: seq<int>)
    requires Chained(th, |text|) && Place(th, |text|, p)
    decreases |text| - p
  {
    if p == |text| then [] else [text[p]] + From(text, th, th.succ[p])
  }

  ghost function Content(text: seq<int>, th: Thread): (r: seq<int>)
    requires Chained(th, |text|)
  {
    From(text, th, 0)
  }

  /** `t` with every `n` replaced by the two symbols of `pr`. */
  ghost function Subst(t: seq<int>, n: int, pr: Pair): (r: seq<int>) {
    if t == [] then [] else (if t[0] == n then [pr.left, pr.right] else [t[0]]) + Subst(t[1..], n, pr)
  }

  /** In how many places, overlapping ones included, `pr` occurs in `t`. */
  ghost function Count(t: seq<int>, pr: Pair): (k: nat) {
    if |t| < 2 then 0 else (if t[0] == pr.left && t[1] == pr.right then 1 else 0) + Count(t[1..], pr)
  }

  /** Behind the replaced pair nothing changes. */
  lemma {:induction false} FromBehind(text: seq<int>, th: Thread, p: int, n: int, q: int)
    requires Chained(th, |text|) && 0 <= p < |text| && th.live[p] && th.succ[p] < |text|
    requires p < th.succ[p] < th.succ[th.succ[p]] <= |text|
    requires Chained(Cut(th, p, th.succ[p], th.succ[th.succ[p]]), |text|)
    requires Place(th, |text|, q) && th.succ[th.succ[p]] <= q
    ensures var s := th.succ[p];
            var e := th.succ[s];
            && Place(Cut(th, p, s, e), |text|, q)
            && From(Replaced(text, p, e, n), Cut(th, p, s, e), q) == From(text, th, q)
    decreases |text| - q
  {
    if q < |text| {
      ForwardAt(th, |text|, q);
      hide Forward, Backward, NoneBetween;
      FromBehind(text, th, p, n, th.succ[q]);
    }
  }

  /** Replacing the pair `pr` at `p` by a symbol `n` standing for it leaves the text with `n` written out unchanged,
      and makes it one symbol shorter. */
  lemma {:induction false} FromReplaced(text: seq<int>, th: Thread, p: int, n: int, pr: Pair, q: int)
    requires Chained(th, |text|) && 0 <= p < |text| && th.live[p] && th.succ[p] < |text|
    requires p < th.succ[p] < th.succ[th.succ[p]] <= |text|
    requires Chained(Cut(th, p, th.succ[p], th.succ[th.succ[p]]), |text|)
    requires pr == Pair(text[p], text[th.succ[p]]) && pr.left != n && pr.right != n
    requires 0 <= q <= p && th.live[q]
    ensures var s := th.succ[p];
            var e := th.succ[s];
            var text', th' := Replaced(text, p, e, n), Cut(th, p, s, e);
            && Place(th', |text|, q)
            && Subst(From(text', th', q), n, pr) == Subst(From(text, th, q), n, pr)
            && |From(text', th', q)| == |From(text, th, q)| - 1
    decreases p - q
  {
    var s := th.succ[p];
    var e := th.succ[s];
    var text', th' := Replaced(text, p, e, n), Cut(th, p, s, e);
    ForwardAt(th, |text|, q);
    ForwardAt(th, |text|, p);
    ForwardAt(th, |text|, s);
    if q == p {
      hide Forward, Backward, NoneBetween;
      FromBehind(text, th, p, n, e);
      var rest := From(text, th, e);
      assert From(text', th', p) == [n] + rest;
      assert From(text, th, p) == [pr.left] + ([pr.right] + rest);
      SubstHead(n, rest, n, pr);
      SubstHead(pr.right, rest, n, pr);
      SubstHead(pr.left, [pr.right] + rest, n, pr);
    } else {
      OutsideHole(th, |text|, p, q);
      hide Forward, Backward, NoneBetween;
      FromReplaced(text, th, p, n, pr, th.succ[q]);
      SubstHead(text[q], From(text, th, th.succ[q]), n, pr);
      SubstHead(text[q], From(text', th', th.succ[q]), n, pr);
    }
  }

  lemma SubstHead(x: int, t: seq<int>, n: int, pr: Pair)
    ensures Subst([x] + t, n, pr) == (if x == n then [pr.left, pr.right] else [x]) + Subst(t, n, pr)
  {
    assert ([x] + t)[1..] == t;
  }

  // ---------- occurrences ----------

  /** The pair that starts at cell `p`. */
  ghost predicate Starts(text: seq<int>, th: Thread, p: int) {
    0 <= p < |text| && |th.live| == |text| == |th.succ| && th.live[p] && 0 <= th.succ[p] < |text|
  }

  ghost function PairAt(text: seq<int>, th: Thread, p: int): (pr: Pair)
    requires Starts(text, th, p)
  {
    Pair(text[p], text[th.succ[p]])
  }

  ghost function OccFrom(text: seq<int>, th: Thread, pr: Pair, q: int): (s: set<int>) {
    set p | 0 <= p < |text| && q <= p && Starts(text, th, p) && PairAt(text, th, p) == pr
  }

  /** The number of cells where a pair starts is the number of its occurrences in the text. */
  lemma {:induction false} OccCount(text: seq<int>, th: Thread, pr: Pair, q: int)
    requires Chained(th, |text|) && Place(th, |text|, q)
    ensures |OccFrom(text, th, pr, q)| == Count(From(text, th, q), pr)
    decreases |text| - q
  {
    if q == |text| {
      assert OccFrom(text, th, pr, q) == {};
    } else {
      ForwardAt(th, |text|, q);
      var e := th.succ[q];
      OccCount(text, th, pr, e);
      assert From(text, th, q)[1..] == From(text, th, e);
      var hit := if Starts(text, th, q) && PairAt(text, th, q) == pr then {q} else {};
      forall p | p in OccFrom(text, th, pr, q) ensures p in hit + OccFrom(text, th, pr, e) {
        assert th.live[p];
      }
      assert OccFrom(text, th, pr, q) == hit + OccFrom(text, th, pr, e);
    }
  }
}
