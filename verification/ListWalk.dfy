/**
 What following the links of an occurrence list visits.
 */
module ListWalk {
  import opened RecordTable
  import opened Chains
  import opened PairSets
  import opened PairIndexes
  import opened TextThread
  import opened Coupling
  import opened RoundCount
  import opened RePair

  /** The cells of the list of `p` from `p` to the tail. */
  ghost function Rest(owner: seq<int>, rank: seq<int>, p: int): (s: set<int>)
    requires |owner| == |rank|
  {
    set q | 0 <= p < |owner| && 0 <= q < |owner| && owner[q] == owner[p] && rank[q] <= rank[p]
  }

  /** Follows `next` from `p`. */
  ghost function Walk(next: seq<int>, prev: seq<int>, head: seq<int>, owner: seq<int>, rank: seq<int>,
                      p: int): (w: seq<int>)
    requires Threaded(next, prev, head, owner, rank) && (p == -1 || InList(owner, p))
    decreases Rest(owner, rank, p)
  {
    if p == -1 then [] else
      assert p in Rest(owner, rank, p) && p !in Rest(owner, rank, next[p])
             && Rest(owner, rank, next[p]) <= Rest(owner, rank, p);
      [p] + Walk(next, prev, head, owner, rank, next[p])
  }

  /** The walk visits the cells from `p` to the tail, and none of them twice. */
  lemma {:induction false} WalkVisits(next: seq<int>, prev: seq<int>, head: seq<int>, owner: seq<int>,
                                      rank: seq<int>, p: int)
    requires Threaded(next, prev, head, owner, rank) && (p == -1 || InList(owner, p))
    ensures var w := Walk(next, prev, head, owner, rank, p);
            && (forall q :: q in w <==> q in Rest(owner, rank, p))
            && (forall i, j :: 0 <= i < j < |w| ==> w[i] != w[j])
    decreases Rest(owner, rank, p)
  {
    if p != -1 {
      assert p in Rest(owner, rank, p) && p !in Rest(owner, rank, next[p])
             && Rest(owner, rank, next[p]) <= Rest(owner, rank, p);
      WalkVisits(next, prev, head, owner, rank, next[p]);
      forall q | q in Rest(owner, rank, p) && q != p ensures q in Rest(owner, rank, next[p]) {
        OrderAt(next, prev, head, owner, rank, p, q);
      }
    }
  }

  /** From the head of a list the walk visits exactly the cells that the list owns. */
  lemma WalkList(next: seq<int>, prev: seq<int>, head: seq<int>, owner: seq<int>, rank: seq<int>, h: int)
    requires Threaded(next, prev, head, owner, rank) && 0 <= h < |head|
    ensures head[h] == -1 || InList(owner, head[h])
    ensures var w := Walk(next, prev, head, owner, rank, head[h]);
            && (forall q :: q in w <==> 0 <= q < |owner| && owner[q] == h)
            && (forall i, j :: 0 <= i < j < |w| ==> w[i] != w[j])
  {
    WalkVisits(next, prev, head, owner, rank, head[h]);
    if head[h] != -1 {
      forall q | 0 <= q < |owner| && owner[q] == h ensures q in Rest(owner, rank, head[h]) {
        OrderAt(next, prev, head, owner, rank, head[h], q);
      }
    }
  }

  lemma {:induction false} LengthIsSize(w: seq<int>, s: set<int>)
    requires (forall q :: q in w <==> q in s) && forall i, j :: 0 <= i < j < |w| ==> w[i] != w[j]
    ensures |w| == |s|
  {
    if w == [] {
      assert forall q :: q in s ==> q in w;
      assert s == {};
    } else {
      assert w[0] in w && w == [w[0]] + w[1..];
      LengthIsSize(w[1..], s - {w[0]});
    }
  }

  /**
   In every state between two steps of the replacement loop, following the links from the head of a record visits the
   positions recorded for its pair, each once, and as many as its frequency says unless it is the record being replaced.
   */
  lemma Occurrences(px: PairIndex, cur: int, id: int)
    requires px.Valid(cur) && 0 <= id < |px.rec.pair|
    ensures Threaded(px.next, px.prev, px.rec.cpos, px.owner, px.rank)
    ensures |px.rec.cpos| == |px.rec.pair| == |px.rec.freq|
    ensures px.rec.pair[id] in px.idx && (px.rec.cpos[id] == -1 || InList(px.owner, px.rec.cpos[id]))
    ensures var w := Walk(px.next, px.prev, px.rec.cpos, px.owner, px.rank, px.rec.cpos[id]);
            && (forall q :: q in w <==> q in px.idx[px.rec.pair[id]])
            && (forall i, j :: 0 <= i < j < |w| ==> w[i] != w[j])
            && (id != cur ==> |w| == px.rec.freq[id])
  {
    WalkList(px.next, px.prev, px.rec.cpos, px.owner, px.rank, id);
    hide Threaded, Walk;
    LengthIsSize(Walk(px.next, px.prev, px.rec.cpos, px.owner, px.rank, px.rec.cpos[id]), Occ(px.owner, id));
  }

  /**
   In every state between two rounds, and in every state of the inner loop, following the links from the head of a
   record visits exactly the live cells of the text where its pair starts, overlapping ones included, each once.  There
   are as many as the pair occurs in the text, and, unless it is the pair being replaced, as many as its frequency says.
   */
  lemma TextOccurrences(en: Engine, cur: int, start: set<Pair>, f: int, id: int)
    requires if cur == -1 then en.Between() else en.InRound(cur, start, f)
    requires 0 <= id < |en.index.rec.pair|
    ensures var px := en.index;
            && Threaded(px.next, px.prev, px.rec.cpos, px.owner, px.rank)
            && |px.rec.cpos| == |px.rec.pair| == |px.rec.freq| && Chained(en.th, |en.text|)
            && (px.rec.cpos[id] == -1 || InList(px.owner, px.rec.cpos[id]))
            && var w, pr := Walk(px.next, px.prev, px.rec.cpos, px.owner, px.rank, px.rec.cpos[id]), px.rec.pair[id];
               && (forall p :: p in w <==> Starts(en.text, en.th, p) && PairAt(en.text, en.th, p) == pr)
               && (forall i, j :: 0 <= i < j < |w| ==> w[i] != w[j])
               && |w| == Count(Content(en.text, en.th), pr) && (id != cur ==> |w| == px.rec.freq[id])
  {
    var px := en.index;
    hide PairIndex.Valid, Threaded, Walk, InList, Threads, Scored, Bounded, Symbols, Loose, Recurring;
    Occurrences(px, cur, id);
    var w, pr := Walk(px.next, px.prev, px.rec.cpos, px.owner, px.rank, px.rec.cpos[id]), px.rec.pair[id];
    forall p ensures p in w <==> Starts(en.text, en.th, p) && PairAt(en.text, en.th, p) == pr {
      assert p in w <==> In(px.idx, pr, p);
    }
    LengthIsSize(w, px.idx[pr]);
    CountOf(en.text, en.th, px.idx, en.n, pr);
  }
}
