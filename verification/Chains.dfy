/**
 Families of doubly linked lists threaded through plain index columns.

 Both list families of the Re-Pair engine have this shape: the occurrence lists kept in `L`, with
 their heads in the records' `cpos` column, and the lists of equally frequent pairs kept in the
 heap's cell pool, with their heads in the `elems` column of the frequency nodes.  A negative
 `prev` marks a list head; -1 in `next` marks a tail.

 `owner[p]` names the list that holds cell `p`, or is -1 when no list holds it.  `rank` orders the
 cells of one list from tail to head; it is what excludes a stray cycle beside the list proper.
 */
module Chains {

  ghost predicate InList(owner: seq<int>, p: int) {
    0 <= p < |owner| && owner[p] >= 0
  }

  ghost predicate Shape(next: seq<int>, prev: seq<int>, head: seq<int>, owner: seq<int>, rank: seq<int>) {
    && |next| == |prev| == |owner| == |rank|
    && forall p :: 0 <= p < |owner| ==> owner[p] < |head|
  }

  ghost predicate NextOk(next: seq<int>, prev: seq<int>, owner: seq<int>, rank: seq<int>)
    requires |next| == |prev| == |owner| == |rank|
  {
    forall p {:trigger next[p]} :: 0 <= p < |next| && owner[p] >= 0 && next[p] != -1 ==>
      0 <= next[p] < |next| && owner[next[p]] == owner[p] && prev[next[p]] == p && rank[next[p]] < rank[p]
  }

  ghost predicate PrevOk(next: seq<int>, prev: seq<int>, owner: seq<int>)
    requires |next| == |prev| == |owner|
  {
    forall p {:trigger prev[p]} :: 0 <= p < |next| && owner[p] >= 0 && prev[p] >= 0 ==>
      prev[p] < |next| && owner[prev[p]] == owner[p] && next[prev[p]] == p
  }

  ghost predicate HeadOk(prev: seq<int>, head: seq<int>, owner: seq<int>)
    requires |prev| == |owner|
  {
    && (forall h {:trigger head[h]} :: 0 <= h < |head| && head[h] != -1 ==>
          0 <= head[h] < |owner| && owner[head[h]] == h && prev[head[h]] < 0)
    && (forall p {:trigger owner[p]} :: 0 <= p < |owner| && 0 <= owner[p] < |head| ==>
          head[owner[p]] != -1 && (prev[p] < 0 ==> head[owner[p]] == p))
  }

  ghost predicate InOrder(next: seq<int>, prev: seq<int>, rank: seq<int>, p: int, q: int)
    requires 0 <= p < |next| == |prev| == |rank| && 0 <= q < |rank| && -1 <= next[p] < |rank|
  {
    && (p != q ==> rank[p] != rank[q])
    && (prev[p] < 0 ==> rank[q] <= rank[p])
    && (next[p] == -1 ==> rank[p] <= rank[q])
    && (next[p] != -1 ==> rank[q] <= rank[next[p]] || rank[p] <= rank[q])
  }

  ghost predicate Ordered(next: seq<int>, prev: seq<int>, owner: seq<int>, rank: seq<int>)
    requires |next| == |prev| == |owner| == |rank|
    requires NextOk(next, prev, owner, rank)
  {
    forall p, q {:trigger rank[p], rank[q]} ::
      0 <= p < |owner| && 0 <= q < |owner| && owner[p] == owner[q] >= 0 ==> InOrder(next, prev, rank, p, q)
  }

  /** Every cell with an owner lies on its owner's list, and on no other. */
  ghost predicate Threaded(next: seq<int>, prev: seq<int>, head: seq<int>, owner: seq<int>, rank: seq<int>) {
    && Shape(next, prev, head, owner, rank)
    && NextOk(next, prev, owner, rank)
    && PrevOk(next, prev, owner)
    && HeadOk(prev, head, owner)
    && Ordered(next, prev, owner, rank)
  }

  // Unlinking: what the three assignments of a removal leave in each column.

  function UnlinkNext(next: seq<int>, prev: seq<int>, p: int): (r: seq<int>)
    requires 0 <= p < |next| == |prev| && prev[p] < |next|
  {
    if prev[p] < 0 then next else next[prev[p] := next[p]]
  }

  function UnlinkPrev(next: seq<int>, prev: seq<int>, p: int): (r: seq<int>)
    requires 0 <= p < |next| == |prev| && -1 <= next[p] < |next|
  {
    if next[p] == -1 then prev else prev[next[p] := prev[p]]
  }

  function UnlinkHead(next: seq<int>, prev: seq<int>, head: seq<int>, h: int, p: int): (r: seq<int>)
    requires 0 <= p < |next| == |prev| && 0 <= h < |head|
  {
    if prev[p] < 0 then head[h := next[p]] else head
  }

  lemma OrderAt(next: seq<int>, prev: seq<int>, head: seq<int>, owner: seq<int>, rank: seq<int>, p: int, q: int)
    requires Threaded(next, prev, head, owner, rank)
    requires InList(owner, p) && InList(owner, q) && owner[p] == owner[q]
    ensures -1 <= next[p] < |next| && InOrder(next, prev, rank, p, q)
  {
    assert rank[p] <= rank[q] || rank[q] <= rank[p];
  }

  /** A cell without neighbours is its whole list. */
  lemma LoneCell(next: seq<int>, prev: seq<int>, head: seq<int>, owner: seq<int>, rank: seq<int>, p: int, q: int)
    requires Threaded(next, prev, head, owner, rank)
    requires InList(owner, p) && InList(owner, q) && owner[p] == owner[q] && prev[p] < 0 && next[p] == -1
    ensures p == q
  {
    assert rank[p] == rank[q];
  }

  lemma UnlinkedHeads(next: seq<int>, prev: seq<int>, head: seq<int>, owner: seq<int>, rank: seq<int>, p: int)
    requires Threaded(next, prev, head, owner, rank) && InList(owner, p)
    ensures HeadOk(UnlinkPrev(next, prev, p), UnlinkHead(next, prev, head, owner[p], p), owner[p := -1])
  {
    var prev' := UnlinkPrev(next, prev, p);
    var head', owner' := UnlinkHead(next, prev, head, owner[p], p), owner[p := -1];
    forall q | 0 <= q < |owner| && 0 <= owner'[q] < |head|
      ensures head'[owner'[q]] != -1 && (prev'[q] < 0 ==> head'[owner'[q]] == q)
    {
      if owner[q] == owner[p] && prev[p] < 0 && next[p] == -1 {
        LoneCell(next, prev, head, owner, rank, p, q);
      }
    }
  }

  lemma UnlinkedOrder(next: seq<int>, prev: seq<int>, head: seq<int>, owner: seq<int>, rank: seq<int>, p: int)
    requires Threaded(next, prev, head, owner, rank) && InList(owner, p)
    requires NextOk(UnlinkNext(next, prev, p), UnlinkPrev(next, prev, p), owner[p := -1], rank)
    ensures Ordered(UnlinkNext(next, prev, p), UnlinkPrev(next, prev, p), owner[p := -1], rank)
  {
    var next', prev' := UnlinkNext(next, prev, p), UnlinkPrev(next, prev, p);
    var owner' := owner[p := -1];
    forall x, q | 0 <= x < |owner| && 0 <= q < |owner| && owner'[x] == owner'[q] >= 0
      ensures InOrder(next', prev', rank, x, q)
    {
      UnlinkedInOrder(next, prev, head, owner, rank, p, x, q);
    }
  }

  lemma UnlinkedInOrder(next: seq<int>, prev: seq<int>, head: seq<int>, owner: seq<int>, rank: seq<int>, p: int,
                        x: int, q: int)
    requires Threaded(next, prev, head, owner, rank) && InList(owner, p) && InList(owner, x) && InList(owner, q)
    requires x != p && q != p && owner[x] == owner[q]
    ensures prev[p] < |next| && -1 <= next[p] < |next|
    ensures -1 <= UnlinkNext(next, prev, p)[x] < |next|
    ensures InOrder(UnlinkNext(next, prev, p), UnlinkPrev(next, prev, p), rank, x, q)
  {
    hide Ordered, HeadOk;
    OrderAt(next, prev, head, owner, rank, x, q);
    if owner[x] == owner[p] {
      OrderAt(next, prev, head, owner, rank, p, q);
      OrderAt(next, prev, head, owner, rank, p, x);
    }
  }

  lemma Unlinked(next: seq<int>, prev: seq<int>, head: seq<int>, owner: seq<int>, rank: seq<int>, p: int)
    requires Threaded(next, prev, head, owner, rank) && InList(owner, p)
    ensures 0 <= p < |next| == |prev| && prev[p] < |next| && -1 <= next[p] < |next| && owner[p] < |head|
    ensures Threaded(UnlinkNext(next, prev, p), UnlinkPrev(next, prev, p),
                     UnlinkHead(next, prev, head, owner[p], p), owner[p := -1], rank)
  {
    hide NextOk, PrevOk, HeadOk, Ordered;
    UnlinkedHeads(next, prev, head, owner, rank, p);
    UnlinkedLinks(next, prev, head, owner, rank, p);
    UnlinkedOrder(next, prev, head, owner, rank, p);
  }

  lemma UnlinkedLinks(next: seq<int>, prev: seq<int>, head: seq<int>, owner: seq<int>, rank: seq<int>, p: int)
    requires Threaded(next, prev, head, owner, rank) && InList(owner, p)
    ensures prev[p] < |next| && -1 <= next[p] < |next|
    ensures NextOk(UnlinkNext(next, prev, p), UnlinkPrev(next, prev, p), owner[p := -1], rank)
    ensures PrevOk(UnlinkNext(next, prev, p), UnlinkPrev(next, prev, p), owner[p := -1])
  {
    hide HeadOk, Ordered;
    var next', prev' := UnlinkNext(next, prev, p), UnlinkPrev(next, prev, p);
    forall q | 0 <= q < |next| && q != p && owner[q] >= 0 && prev'[q] >= 0
      ensures prev'[q] < |next| && owner[prev'[q]] == owner[q] && prev'[q] != p && next'[prev'[q]] == q
    {
      assert q == next[p] || prev'[q] == prev[q];
    }
  }

  // Pushing cell `p` in front of list `h`; `mark` is the negative head mark.

  function PushNext(next: seq<int>, head: seq<int>, h: int, p: int): (r: seq<int>)
    requires 0 <= p < |next| && 0 <= h < |head|
  {
    next[p := head[h]]
  }

  function PushPrev(prev: seq<int>, head: seq<int>, h: int, p: int, mark: int): (r: seq<int>)
    requires 0 <= p < |prev| && 0 <= h < |head| && -1 <= head[h] < |prev|
  {
    (if head[h] == -1 then prev else prev[head[h] := p])[p := mark]
  }

  lemma Pushed(next: seq<int>, prev: seq<int>, head: seq<int>, owner: seq<int>, rank: seq<int>, h: int, p: int,
               mark: int, r: int)
    requires Threaded(next, prev, head, owner, rank)
    requires 0 <= p < |next| && owner[p] < 0 && 0 <= h < |head| && mark < 0
    requires head[h] != -1 ==> rank[head[h]] < r
    ensures -1 <= head[h] < |next| && head[h] != p
    ensures Threaded(PushNext(next, head, h, p), PushPrev(prev, head, h, p, mark), head[h := p],
                     owner[p := h], rank[p := r])
  {
    PushedLinks(next, prev, head, owner, rank, h, p, mark, r);
    PushedHeads(next, prev, head, owner, rank, h, p, mark, r);
    PushedOrder(next, prev, head, owner, rank, h, p, mark, r);
    hide NextOk, PrevOk, HeadOk, Ordered;
  }

  lemma PushedLinks(next: seq<int>, prev: seq<int>, head: seq<int>, owner: seq<int>, rank: seq<int>, h: int, p: int,
                    mark: int, r: int)
    requires Threaded(next, prev, head, owner, rank)
    requires 0 <= p < |next| && owner[p] < 0 && 0 <= h < |head| && mark < 0
    requires head[h] != -1 ==> rank[head[h]] < r
    ensures -1 <= head[h] < |next| && head[h] != p
    ensures NextOk(PushNext(next, head, h, p), PushPrev(prev, head, h, p, mark), owner[p := h], rank[p := r])
    ensures PrevOk(PushNext(next, head, h, p), PushPrev(prev, head, h, p, mark), owner[p := h])
  {
    hide Ordered;
  }

  lemma PushedHeads(next: seq<int>, prev: seq<int>, head: seq<int>, owner: seq<int>, rank: seq<int>, h: int, p: int,
                    mark: int, r: int)
    requires Threaded(next, prev, head, owner, rank)
    requires 0 <= p < |next| && owner[p] < 0 && 0 <= h < |head| && mark < 0
    requires head[h] != -1 ==> rank[head[h]] < r
    ensures -1 <= head[h] < |next|
    ensures HeadOk(PushPrev(prev, head, h, p, mark), head[h := p], owner[p := h])
  {
    hide Ordered, NextOk, PrevOk;
  }

  lemma PushedOrder(next: seq<int>, prev: seq<int>, head: seq<int>, owner: seq<int>, rank: seq<int>, h: int, p: int,
                    mark: int, r: int)
    requires Threaded(next, prev, head, owner, rank)
    requires 0 <= p < |next| && owner[p] < 0 && 0 <= h < |head| && mark < 0
    requires head[h] != -1 ==> rank[head[h]] < r
    requires -1 <= head[h] < |next|
    requires NextOk(PushNext(next, head, h, p), PushPrev(prev, head, h, p, mark), owner[p := h], rank[p := r])
    ensures Ordered(PushNext(next, head, h, p), PushPrev(prev, head, h, p, mark), owner[p := h], rank[p := r])
  {
    hide PrevOk;
    var next', prev' := PushNext(next, head, h, p), PushPrev(prev, head, h, p, mark);
    var owner', rank' := owner[p := h], rank[p := r];
    forall x, q | 0 <= x < |owner| && 0 <= q < |owner| && owner'[x] == owner'[q] >= 0
      ensures InOrder(next', prev', rank', x, q)
    {
      PushedInOrder(next, prev, head, owner, rank, h, p, mark, r, x, q);
    }
  }

  lemma PushedInOrder(next: seq<int>, prev: seq<int>, head: seq<int>, owner: seq<int>, rank: seq<int>, h: int,
                      p: int, mark: int,
                      r: int, x: int, q: int)
    requires Threaded(next, prev, head, owner, rank)
    requires 0 <= p < |next| && owner[p] < 0 && 0 <= h < |head| && mark < 0
    requires head[h] != -1 ==> rank[head[h]] < r
    requires InList(owner[p := h], x) && InList(owner[p := h], q) && owner[p := h][x] == owner[p := h][q]
    ensures -1 <= head[h] < |next|
    ensures -1 <= PushNext(next, head, h, p)[x] < |next|
    ensures InOrder(PushNext(next, head, h, p), PushPrev(prev, head, h, p, mark), rank[p := r], x, q)
  {
    hide Ordered, PrevOk;
    if x != p && q != p {
      OrderAt(next, prev, head, owner, rank, x, q);
    }
    if head[h] != -1 && q != p && owner[q] == h {
      OrderAt(next, prev, head, owner, rank, head[h], q);
    }
    if head[h] != -1 && x != p && owner[x] == h {
      OrderAt(next, prev, head, owner, rank, head[h], x);
    }
  }

  // Inserting cell `p` right behind cell `x`.

  function InsertNext(next: seq<int>, x: int, p: int): (r: seq<int>)
    requires 0 <= p < |next| && 0 <= x < |next|
  {
    next[p := next[x]][x := p]
  }

  function InsertPrev(next: seq<int>, prev: seq<int>, x: int, p: int): (r: seq<int>)
    requires 0 <= p < |next| == |prev| && 0 <= x < |next| && -1 <= next[x] < |next|
  {
    (if next[x] == -1 then prev else prev[next[x] := p])[p := x]
  }

  lemma Inserted(next: seq<int>, prev: seq<int>, head: seq<int>, owner: seq<int>, rank: seq<int>, x: int, p: int,
                 r: int)
    requires Threaded(next, prev, head, owner, rank)
    requires 0 <= p < |next| && owner[p] < 0 && InList(owner, x)
    requires r < rank[x] && (next[x] != -1 ==> rank[next[x]] < r)
    ensures -1 <= next[x] < |next|
    ensures Threaded(InsertNext(next, x, p), InsertPrev(next, prev, x, p), head, owner[p := owner[x]], rank[p := r])
  {
    InsertedLinks(next, prev, head, owner, rank, x, p, r);
    InsertedHeads(next, prev, head, owner, rank, x, p, r);
    InsertedOrder(next, prev, head, owner, rank, x, p, r);
    hide NextOk, PrevOk, HeadOk, Ordered;
  }

  lemma InsertedLinks(next: seq<int>, prev: seq<int>, head: seq<int>, owner: seq<int>, rank: seq<int>, x: int,
                      p: int, r: int)
    requires Threaded(next, prev, head, owner, rank)
    requires 0 <= p < |next| && owner[p] < 0 && InList(owner, x)
    requires r < rank[x] && (next[x] != -1 ==> rank[next[x]] < r)
    ensures -1 <= next[x] < |next|
    ensures NextOk(InsertNext(next, x, p), InsertPrev(next, prev, x, p), owner[p := owner[x]], rank[p := r])
    ensures PrevOk(InsertNext(next, x, p), InsertPrev(next, prev, x, p), owner[p := owner[x]])
  {
    hide Ordered, HeadOk;
  }

  lemma InsertedHeads(next: seq<int>, prev: seq<int>, head: seq<int>, owner: seq<int>, rank: seq<int>, x: int,
                      p: int, r: int)
    requires Threaded(next, prev, head, owner, rank)
    requires 0 <= p < |next| && owner[p] < 0 && InList(owner, x)
    ensures -1 <= next[x] < |next|
    ensures HeadOk(InsertPrev(next, prev, x, p), head, owner[p := owner[x]])
  {
    hide Ordered, PrevOk;
  }

  lemma InsertedOrder(next: seq<int>, prev: seq<int>, head: seq<int>, owner: seq<int>, rank: seq<int>, x: int,
                      p: int, r: int)
    requires Threaded(next, prev, head, owner, rank)
    requires 0 <= p < |next| && owner[p] < 0 && InList(owner, x)
    requires r < rank[x] && (next[x] != -1 ==> rank[next[x]] < r)
    requires -1 <= next[x] < |next|
    requires NextOk(InsertNext(next, x, p), InsertPrev(next, prev, x, p), owner[p := owner[x]], rank[p := r])
    ensures Ordered(InsertNext(next, x, p), InsertPrev(next, prev, x, p), owner[p := owner[x]], rank[p := r])
  {
    var next', prev', owner', rank' := InsertNext(next, x, p), InsertPrev(next, prev, x, p), owner[p := owner[x]],
        rank[p := r];
    forall y, q | 0 <= y < |owner| && 0 <= q < |owner| && owner'[y] == owner'[q] >= 0
      ensures InOrder(next', prev', rank', y, q)
    {
      InsertedInOrder(next, prev, head, owner, rank, x, p, r, y, q);
    }
  }

  lemma InsertedInOrder(next: seq<int>, prev: seq<int>, head: seq<int>, owner: seq<int>, rank: seq<int>, x: int,
                        p: int, r: int,
                        y: int, q: int)
    requires Threaded(next, prev, head, owner, rank)
    requires 0 <= p < |next| && owner[p] < 0 && InList(owner, x)
    requires r < rank[x] && (next[x] != -1 ==> rank[next[x]] < r)
    requires InList(owner[p := owner[x]], y) && InList(owner[p := owner[x]], q)
    requires owner[p := owner[x]][y] == owner[p := owner[x]][q]
    ensures -1 <= next[x] < |next|
    ensures -1 <= InsertNext(next, x, p)[y] < |next|
    ensures InOrder(InsertNext(next, x, p), InsertPrev(next, prev, x, p), rank[p := r], y, q)
  {
    hide Ordered, HeadOk;
    if y != p && q != p {
      OrderAt(next, prev, head, owner, rank, y, q);
    }
    if q != p && owner[q] == owner[x] {
      OrderAt(next, prev, head, owner, rank, x, q);
    }
    if y != p && owner[y] == owner[x] {
      OrderAt(next, prev, head, owner, rank, y, x);
      OrderAt(next, prev, head, owner, rank, x, y);
    }
  }

  /** A cell's rank may move as long as it stays between its neighbours'. */
  lemma Reranked(next: seq<int>, prev: seq<int>, head: seq<int>, owner: seq<int>, rank: seq<int>, p: int, r: int)
    requires Threaded(next, prev, head, owner, rank) && InList(owner, p)
    requires next[p] != -1 ==> rank[next[p]] < r
    requires prev[p] >= 0 ==> prev[p] < |rank| && r < rank[prev[p]]
    ensures Threaded(next, prev, head, owner, rank[p := r])
  {
    var rank' := rank[p := r];
    assert NextOk(next, prev, owner, rank') by { hide Ordered, HeadOk; }
    forall y, q | 0 <= y < |owner| && 0 <= q < |owner| && owner[y] == owner[q] >= 0
      ensures InOrder(next, prev, rank', y, q)
    {
      RerankedInOrder(next, prev, head, owner, rank, p, r, y, q);
    }
  }

  lemma RerankedInOrder(next: seq<int>, prev: seq<int>, head: seq<int>, owner: seq<int>, rank: seq<int>, p: int,
                        r: int, y: int, q: int)
    requires Threaded(next, prev, head, owner, rank) && InList(owner, p)
    requires next[p] != -1 ==> rank[next[p]] < r
    requires prev[p] >= 0 ==> prev[p] < |rank| && r < rank[prev[p]]
    requires InList(owner, y) && InList(owner, q) && owner[y] == owner[q]
    ensures -1 <= next[y] < |next|
    ensures InOrder(next, prev, rank[p := r], y, q)
  {
    hide Ordered, HeadOk;
    OrderAt(next, prev, head, owner, rank, y, q);
    if owner[y] == owner[p] {
      OrderAt(next, prev, head, owner, rank, p, q);
      OrderAt(next, prev, head, owner, rank, p, y);
      OrderAt(next, prev, head, owner, rank, y, p);
      if next[y] != -1 {
        OrderAt(next, prev, head, owner, rank, p, next[y]);
      }
      if prev[p] >= 0 {
        if next[y] != -1 {
          OrderAt(next, prev, head, owner, rank, prev[p], next[y]);
        }
        OrderAt(next, prev, head, owner, rank, prev[p], q);
        OrderAt(next, prev, head, owner, rank, prev[p], y);
      }
    }
  }

  /** The links of a cell that is on no list do not matter. */
  lemma Loosened(next: seq<int>, prev: seq<int>, head: seq<int>, owner: seq<int>, rank: seq<int>, p: int, a: int,
                 b: int)
    requires Threaded(next, prev, head, owner, rank) && 0 <= p < |next| && owner[p] < 0
    ensures Threaded(next[p := a], prev[p := b], head, owner, rank)
  {
    forall x, q | 0 <= x < |owner| && 0 <= q < |owner| && owner[x] == owner[q] >= 0
      ensures InOrder(next[p := a], prev[p := b], rank, x, q)
    {
      OrderAt(next, prev, head, owner, rank, x, q);
    }
    hide Ordered;
  }

  /** A head may carry any negative mark. */
  lemma Remarked(next: seq<int>, prev: seq<int>, head: seq<int>, owner: seq<int>, rank: seq<int>, p: int, mark: int)
    requires Threaded(next, prev, head, owner, rank) && InList(owner, p) && prev[p] < 0 && mark < 0
    ensures Threaded(next, prev[p := mark], head, owner, rank)
  {
    hide NextOk, PrevOk, HeadOk, Ordered;
    var prev' := prev[p := mark];
    RemarkedLinks(next, prev, head, owner, rank, p, mark);
    forall x, q | 0 <= x < |owner| && 0 <= q < |owner| && owner[x] == owner[q] >= 0
      ensures -1 <= next[x] < |next| && InOrder(next, prev', rank, x, q)
    {
      OrderAt(next, prev, head, owner, rank, x, q);
    }
    AllInOrder(next, prev', owner, rank);
  }

  lemma RemarkedLinks(next: seq<int>, prev: seq<int>, head: seq<int>, owner: seq<int>, rank: seq<int>, p: int,
                      mark: int)
    requires Threaded(next, prev, head, owner, rank) && InList(owner, p) && prev[p] < 0 && mark < 0
    ensures NextOk(next, prev[p := mark], owner, rank) && PrevOk(next, prev[p := mark], owner)
    ensures HeadOk(prev[p := mark], head, owner)
  {
    hide Ordered;
  }

  /** `owner` once list `last` is called `id`. */
  ghost function Rename(owner: seq<int>, last: int, id: int): (r: seq<int>)
    ensures |r| == |owner|
    ensures forall p :: 0 <= p < |owner| ==> r[p] == if owner[p] == last then id else owner[p]
  {
    seq(|owner|, p requires 0 <= p < |owner| => if owner[p] == last then id else owner[p])
  }

  /** The last list takes over the number of an empty one. */
  lemma Renamed(next: seq<int>, prev: seq<int>, head: seq<int>, owner: seq<int>, rank: seq<int>, id: int)
    requires Threaded(next, prev, head, owner, rank) && 0 <= id < |head| && head[id] == -1
    ensures var last := |head| - 1;
            Threaded(next, prev, head[id := head[last]][..last], Rename(owner, last, id), rank)
  {
    var last := |head| - 1;
    var head', owner' := head[id := head[last]][..last], Rename(owner, last, id);
    assert forall p :: 0 <= p < |owner| ==> owner[p] != id by { hide Ordered, NextOk, PrevOk; }
    RenamedLinks(next, prev, head, owner, rank, id);
    forall x, q | 0 <= x < |owner| && 0 <= q < |owner| && owner'[x] == owner'[q] >= 0
      ensures -1 <= next[x] < |next| && InOrder(next, prev, rank, x, q)
    {
      assert owner[x] == owner[q];
      OrderAt(next, prev, head, owner, rank, x, q);
    }
    hide Ordered;
  }

  lemma RenamedLinks(next: seq<int>, prev: seq<int>, head: seq<int>, owner: seq<int>, rank: seq<int>, id: int)
    requires Threaded(next, prev, head, owner, rank) && 0 <= id < |head| && head[id] == -1
    requires forall p :: 0 <= p < |owner| ==> owner[p] != id
    ensures NextOk(next, prev, Rename(owner, |head| - 1, id), rank)
    ensures PrevOk(next, prev, Rename(owner, |head| - 1, id))
    ensures HeadOk(prev, head[id := head[|head| - 1]][..|head| - 1], Rename(owner, |head| - 1, id))
    ensures Shape(next, prev, head[id := head[|head| - 1]][..|head| - 1], Rename(owner, |head| - 1, id), rank)
  {
    hide Ordered;
  }

  // Moving a cell to another place.

  function RelocateNext(next: seq<int>, prev: seq<int>, i: int, j: int): (r: seq<int>)
    requires 0 <= i < |next| == |prev| && 0 <= j < |next| && prev[i] < |next|
  {
    var n := next[j := next[i]];
    if prev[i] < 0 then n else n[prev[i] := j]
  }

  function RelocatePrev(next: seq<int>, prev: seq<int>, i: int, j: int): (r: seq<int>)
    requires 0 <= i < |next| == |prev| && 0 <= j < |next| && -1 <= next[i] < |next|
  {
    var p := prev[j := prev[i]];
    if next[i] == -1 then p else p[next[i] := j]
  }

  function RelocateHead(prev: seq<int>, head: seq<int>, h: int, i: int, j: int): (r: seq<int>)
    requires 0 <= i < |prev| && 0 <= h < |head|
  {
    if prev[i] < 0 then head[h := j] else head
  }

  lemma Relocated(next: seq<int>, prev: seq<int>, head: seq<int>, owner: seq<int>, rank: seq<int>, i: int, j: int)
    requires Threaded(next, prev, head, owner, rank) && InList(owner, i) && 0 <= j < |owner| && owner[j] < 0
    ensures prev[i] < |next| && -1 <= next[i] < |next| && owner[i] < |head|
    ensures Threaded(RelocateNext(next, prev, i, j), RelocatePrev(next, prev, i, j),
                     RelocateHead(prev, head, owner[i], i, j),
                     owner[j := owner[i]][i := -1], rank[j := rank[i]])
  {
    hide NextOk, PrevOk, HeadOk, Ordered;
    RelocatedLinks(next, prev, head, owner, rank, i, j);
    RelocatedBack(next, prev, head, owner, rank, i, j);
    RelocatedHeads(next, prev, head, owner, rank, i, j);
    RelocatedOrder(next, prev, head, owner, rank, i, j);
  }

  lemma RelocatedLinks(next: seq<int>, prev: seq<int>, head: seq<int>, owner: seq<int>, rank: seq<int>, i: int, j: int)
    requires Threaded(next, prev, head, owner, rank) && InList(owner, i) && 0 <= j < |owner| && owner[j] < 0
    ensures prev[i] < |next| && -1 <= next[i] < |next|
    ensures NextOk(RelocateNext(next, prev, i, j), RelocatePrev(next, prev, i, j), owner[j := owner[i]][i := -1],
                   rank[j := rank[i]])
  {
    hide HeadOk, Ordered;
  }

  lemma RelocatedBack(next: seq<int>, prev: seq<int>, head: seq<int>, owner: seq<int>, rank: seq<int>, i: int, j: int)
    requires Threaded(next, prev, head, owner, rank) && InList(owner, i) && 0 <= j < |owner| && owner[j] < 0
    ensures prev[i] < |next| && -1 <= next[i] < |next|
    ensures PrevOk(RelocateNext(next, prev, i, j), RelocatePrev(next, prev, i, j), owner[j := owner[i]][i := -1])
  {
    hide HeadOk, Ordered;
    var next', prev' := RelocateNext(next, prev, i, j), RelocatePrev(next, prev, i, j);
    var owner' := owner[j := owner[i]][i := -1];
    forall q | 0 <= q < |next| && owner'[q] >= 0 && prev'[q] >= 0
      ensures prev'[q] < |next| && owner'[prev'[q]] == owner'[q] && next'[prev'[q]] == q
    {
      assert q == j || q == next[i] || prev'[q] == prev[q];
    }
  }

  lemma RelocatedHeads(next: seq<int>, prev: seq<int>, head: seq<int>, owner: seq<int>, rank: seq<int>, i: int, j: int)
    requires Threaded(next, prev, head, owner, rank) && InList(owner, i) && 0 <= j < |owner| && owner[j] < 0
    ensures prev[i] < |next| && -1 <= next[i] < |next| && owner[i] < |head|
    ensures HeadOk(RelocatePrev(next, prev, i, j), RelocateHead(prev, head, owner[i], i, j),
                   owner[j := owner[i]][i := -1])
  {
    hide Ordered;
  }

  lemma RelocatedOrder(next: seq<int>, prev: seq<int>, head: seq<int>, owner: seq<int>, rank: seq<int>, i: int, j: int)
    requires Threaded(next, prev, head, owner, rank) && InList(owner, i) && 0 <= j < |owner| && owner[j] < 0
    requires prev[i] < |next| && -1 <= next[i] < |next|
    requires NextOk(RelocateNext(next, prev, i, j), RelocatePrev(next, prev, i, j), owner[j := owner[i]][i := -1],
                    rank[j := rank[i]])
    ensures Ordered(RelocateNext(next, prev, i, j), RelocatePrev(next, prev, i, j), owner[j := owner[i]][i := -1],
                    rank[j := rank[i]])
  {
    hide HeadOk, Ordered, NextOk, PrevOk;
    var next', prev' := RelocateNext(next, prev, i, j), RelocatePrev(next, prev, i, j);
    var owner', rank' := owner[j := owner[i]][i := -1], rank[j := rank[i]];
    forall x, q | 0 <= x < |owner| && 0 <= q < |owner| && owner'[x] == owner'[q] >= 0
      ensures -1 <= next'[x] < |next'| && InOrder(next', prev', rank', x, q)
    {
      RelocatedInOrder(next, prev, head, owner, rank, i, j, x, q);
    }
    AllInOrder(next', prev', owner', rank');
  }

  lemma AllInOrder(next: seq<int>, prev: seq<int>, owner: seq<int>, rank: seq<int>)
    requires |next| == |prev| == |owner| == |rank| && NextOk(next, prev, owner, rank)
    requires forall x, q :: 0 <= x < |owner| && 0 <= q < |owner| && owner[x] == owner[q] >= 0 ==>
               -1 <= next[x] < |next| && InOrder(next, prev, rank, x, q)
    ensures Ordered(next, prev, owner, rank)
  {
  }

  lemma RelocatedInOrder(next: seq<int>, prev: seq<int>, head: seq<int>, owner: seq<int>, rank: seq<int>, i: int,
                         j: int, x: int, q: int)
    requires Threaded(next, prev, head, owner, rank) && InList(owner, i) && 0 <= j < |owner| && owner[j] < 0
    requires prev[i] < |next| && -1 <= next[i] < |next|
    requires var o := owner[j := owner[i]][i := -1]; InList(o, x) && InList(o, q) && o[x] == o[q]
    ensures -1 <= RelocateNext(next, prev, i, j)[x] < |next|
    ensures InOrder(RelocateNext(next, prev, i, j), RelocatePrev(next, prev, i, j), rank[j := rank[i]], x, q)
  {
    hide HeadOk, Ordered;
    OrderAt(next, prev, head, owner, rank, if x == j then i else x, if q == j then i else q);
  }

  /** One more, empty, list. */
  lemma Extended(next: seq<int>, prev: seq<int>, head: seq<int>, owner: seq<int>, rank: seq<int>)
    requires Threaded(next, prev, head, owner, rank)
    ensures Threaded(next, prev, head + [-1], owner, rank)
  {
    hide NextOk, PrevOk, Ordered;
    var head' := head + [-1];
    assert forall h :: 0 <= h < |head| ==> head'[h] == head[h];
  }

  /** Cells beyond the last one on a list do not matter. */
  lemma Truncated(next: seq<int>, prev: seq<int>, head: seq<int>, owner: seq<int>, rank: seq<int>, n: int)
    requires Threaded(next, prev, head, owner, rank) && 0 <= n <= |owner|
    requires forall p :: n <= p < |owner| ==> owner[p] < 0
    ensures Threaded(next[..n], prev[..n], head, owner[..n], rank[..n])
  {
    hide NextOk, PrevOk, HeadOk, Ordered;
    TruncatedLinks(next, prev, head, owner, rank, n);
    forall x, q | 0 <= x < n && 0 <= q < n && owner[..n][x] == owner[..n][q] >= 0
      ensures -1 <= next[..n][x] < n && InOrder(next[..n], prev[..n], rank[..n], x, q)
    {
      OrderAt(next, prev, head, owner, rank, x, q);
      TruncatedNext(next, prev, head, owner, rank, n, x);
    }
    AllInOrder(next[..n], prev[..n], owner[..n], rank[..n]);
  }

  lemma TruncatedNext(next: seq<int>, prev: seq<int>, head: seq<int>, owner: seq<int>, rank: seq<int>, n: int, x: int)
    requires Threaded(next, prev, head, owner, rank) && 0 <= x < n <= |owner| && owner[x] >= 0
    requires forall p :: n <= p < |owner| ==> owner[p] < 0
    ensures -1 <= next[x] < n
  {
    hide PrevOk, HeadOk, Ordered;
  }

  lemma TruncatedLinks(next: seq<int>, prev: seq<int>, head: seq<int>, owner: seq<int>, rank: seq<int>, n: int)
    requires Threaded(next, prev, head, owner, rank) && 0 <= n <= |owner|
    requires forall p :: n <= p < |owner| ==> owner[p] < 0
    ensures NextOk(next[..n], prev[..n], owner[..n], rank[..n]) && PrevOk(next[..n], prev[..n], owner[..n])
    ensures HeadOk(prev[..n], head, owner[..n])
  {
    hide Ordered;
  }
}
