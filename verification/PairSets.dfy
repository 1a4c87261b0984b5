/** Maps from pairs to the text positions where they occur: what the pair index stands for. */
module PairSets {
  import opened RecordTable
  import opened Cards

  type Index = map<Pair, set<int>>

  ghost predicate In(idx: Index, pr: Pair, p: int) {
    pr in idx && p in idx[pr]
  }

  /** One occurrence less; a record other than `keep` disappears with its last one. */
  ghost function Removed(idx: Index, pr: Pair, p: int, keep: Pair): (r: Index) {
    if pr !in idx then idx
    else if pr != keep && |idx[pr]| == 1 then idx - {pr}
    else idx[pr := idx[pr] - {p}]
  }

  /** One occurrence more. */
  ghost function Inserted(idx: Index, pr: Pair, p: int): (r: Index) {
    idx[pr := (if pr in idx then idx[pr] else {}) + {p}]
  }

  lemma OnlyElement(s: set<int>, p: int, q: int)
    requires |s| == 1 && p in s && q in s
    ensures p == q
  {
    SubsetCard({p, q}, s);
  }

  lemma RemovedIn(idx: Index, pr: Pair, p: int, keep: Pair, x: Pair, q: int)
    requires pr in idx ==> p in idx[pr]
    ensures In(Removed(idx, pr, p, keep), x, q) <==> In(idx, x, q) && !(x == pr && q == p)
  {
    if pr in idx && pr != keep && |idx[pr]| == 1 && x == pr && In(idx, x, q) {
      OnlyElement(idx[pr], p, q);
    }
  }

  lemma InsertedIn(idx: Index, pr: Pair, p: int, x: Pair, q: int)
    ensures In(Inserted(idx, pr, p), x, q) <==> In(idx, x, q) || (x == pr && q == p)
  {
  }
}
