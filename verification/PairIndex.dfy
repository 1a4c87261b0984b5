/**
 The pair index of the engine: records, hash table, heap and occurrence lists together.

 Seen from outside it is a map `idx` from each recorded pair to the set of text positions where it occurs.
 Inside, every record appears in four places that point at each other by raw indices: the hash cell `kpos`,
 the heap entry `hpos`, the list head `cpos`, and the mark `-id-1` in the `prev` field of that head.
 `Valid(cur)` says that all of them agree; `cur` is the record taken out of the heap by the current
 replacement round, or -1.
 */
module PairIndexes {
  import opened RecordTable
  import opened Chains
  import opened Cards
  import opened PairSets
  import opened HashTable
  import opened FrequencyHeap

  const NULL_FREQ: int := -0x8000_0000
  const MAX_INT: int := 0x7fff_ffff

  ghost function Occ(owner: seq<int>, id: int): (s: set<int>) {
    set p | 0 <= p < |owner| && owner[p] == id
  }

  ghost function Owned(owner: seq<int>): (s: set<int>) {
    set p | 0 <= p < |owner| && owner[p] >= 0
  }

  /** The records, out of `n`, that the heap holds when those in `out` have been taken off it. */
  ghost function Heaped(n: int, out: set<int>): (s: set<int>)
    requires 0 <= n
  {
    Below(n) - out
  }

  lemma HeapedGrown(n: int, out: set<int>)
    requires 0 <= n && n !in out
    ensures Below(n + 1) == Below(n) + {n} && Heaped(n + 1, out) == Heaped(n, out) + {n}
    ensures n !in Below(n) && n !in Heaped(n, out) && forall i :: i in Below(n) <==> 0 <= i < n
  {
  }

  lemma HeapedIn(n: int, out: set<int>, id: int)
    requires 0 <= n
    ensures id in Below(n) <==> 0 <= id < n
    ensures id in Heaped(n, out) <==> 0 <= id < n && id !in out
    ensures Heaped(n, out) - {id} == Heaped(n, out + {id})
  {
  }

  lemma HeapedShrunk(last: int, out: set<int>, id: int)
    requires 0 <= id <= last && id in out && (last in out ==> last == id)
    ensures id in Below(last + 1) && id !in Heaped(last + 1, out)
    ensures id == last ==> Below(last + 1) - {id} == Below(last) && Heaped(last + 1, out) == Heaped(last, out - {id})
    ensures forall i :: i in Below(last) ==> i < last
    ensures forall i :: i in Heaped(last, out - {id}) ==> i < last
  {
    hide Below;
  }

  lemma HeapedMoved(last: int, out: set<int>, id: int)
    requires 0 <= id < last && id in out && last !in out
    ensures Below(last + 1) - {id} - {last} + {id} == Below(last)
    ensures Heaped(last + 1, out) - {last} + {id} == Heaped(last, out - {id})
    ensures last in Below(last + 1) - {id} && last in Heaped(last + 1, out)
  {
    var big, small := Below(last + 1), Below(last);
    assert small == big - {last};
    hide Below;
    assert big - {id} - {last} + {id} == small;
    assert big - out - {last} + {id} == small - (out - {id});
  }

  // What the writes of a removal leave when the last record takes over row `id`.

  ghost function TableWithout(table: seq<int>, kpos: seq<int>, id: int): (r: seq<int>) {
    var last := |kpos| - 1;
    if 0 <= id < last && 0 <= kpos[last] < |table| then table[kpos[last] := id] else table
  }

  ghost function LowWithout(infreq: seq<seq<int>>, freq: seq<int>, hpos: seq<int>, sqrtu: int,
                            id: int): (r: seq<seq<int>>) {
    var last := |freq| - 1;
    if !(0 <= id < last < |hpos| && 0 <= freq[last] < sqrtu) then infreq
    else if !(freq[last] < |infreq| && 0 <= hpos[last] < |infreq[freq[last]]|) then infreq
    else infreq[freq[last] := infreq[freq[last]][hpos[last] := id]]
  }

  ghost function TierWithout(t: Tier, freq: seq<int>, hpos: seq<int>, sqrtu: int, id: int): (r: Tier) {
    var last := |freq| - 1;
    if 0 <= id < last < |hpos| && freq[last] >= sqrtu
    && 0 <= hpos[last] < |t.cid| then t.(cid := t.cid[hpos[last] := id]) else t
  }

  /** The hash table once record `id`, already deleted, has been overwritten by the last one. */
  lemma HashMoved(table: seq<int>, pair: seq<Pair>, kpos: seq<int>, id: int, last: int)
    requires 0 <= id <= last == |pair| - 1 && Holds(table, pair, kpos, Below(|pair|) - {id})
    ensures |kpos| == |pair| && (id != last ==> 0 <= kpos[last] < |table|)
    ensures |Below(|pair|) - {id}| == |Below(last)|
    ensures var table' := TableWithout(table, kpos, id);
            && Holds(table', Without(pair, id), Without(kpos, id), Below(last))
            && |table'| == |table| && |Spare(table')| == |Spare(table)|
  {
    hide Holds, Below, Heaped;
    HeldSizes(table, pair, kpos, Below(|pair|) - {id});
    BelowMinus(last, id);
    if id == last {
      HoldsTruncated(table, pair, kpos, Below(last), last);
      assert pair[id := pair[last]] == pair && kpos[id := kpos[last]] == kpos;
    } else {
      HeldAt(table, pair, kpos, Below(|pair|) - {id}, last);
      Moved(table, pair, kpos, Below(|pair|) - {id}, id, last);
      HoldsTruncated(table[kpos[last] := id], pair[id := pair[last]], kpos[id := kpos[last]], Below(last), last);
    }
  }

  lemma BelowMinus(last: int, id: int)
    requires 0 <= id <= last
    ensures |Below(last + 1) - {id}| == |Below(last)| && id in Below(last + 1)
    ensures id == last ==> Below(last + 1) - {id} == Below(last)
    ensures id != last ==> Below(last + 1) - {id} - {last} + {id} == Below(last) && last in Below(last + 1)
    ensures forall i :: i in Below(last) ==> i < last
  {
    HeapedShrunk(last, {id}, id);
    if id != last {
      HeapedMoved(last, {id}, id);
    }
  }

  lemma HeldSizes(table: seq<int>, pair: seq<Pair>, kpos: seq<int>, dom: set<int>)
    requires Holds(table, pair, kpos, dom)
    ensures |kpos| == |pair|
  {
    hide Filed;
  }

  lemma HeldAt(table: seq<int>, pair: seq<Pair>, kpos: seq<int>, dom: set<int>, id: int)
    requires Holds(table, pair, kpos, dom) && id in dom
    ensures |kpos| == |pair| && 0 <= id < |kpos| && 0 <= kpos[id] < |table|
  {
    assert Filed(table, pair[id], kpos[id], id);
  }

  lemma LowAt(infreq: seq<seq<int>>, freq: seq<int>, hpos: seq<int>, dom: set<int>, sqrtu: int, lo: int, id: int)
    requires LowTier(infreq, freq, hpos, dom, sqrtu, lo) && id in dom
    ensures |infreq| == sqrtu && 0 <= id < |freq| == |hpos| && 1 <= freq[id]
    ensures freq[id] < sqrtu ==> 0 <= hpos[id] < |infreq[freq[id]]|
  {
  }

  lemma LowSizes(infreq: seq<seq<int>>, freq: seq<int>, hpos: seq<int>, dom: set<int>, sqrtu: int, lo: int)
    requires LowTier(infreq, freq, hpos, dom, sqrtu, lo)
    ensures |infreq| == sqrtu && |freq| == |hpos|
  {
  }

  /** The low tier once record `id`, already off the heap, has been overwritten by the last one. */
  lemma LowHeapMoved(infreq: seq<seq<int>>, freq: seq<int>, hpos: seq<int>, sqrtu: int, lo: int, out: set<int>, id: int)
    requires 0 <= id < |freq| == |hpos| && id in out && (|freq| - 1 in out ==> |freq| - 1 == id) && 2 <= sqrtu
    requires LowTier(infreq, freq, hpos, Heaped(|freq|, out), sqrtu, lo)
    ensures |infreq| == sqrtu
    ensures var last := |freq| - 1;
            id != last ==> freq[last] >= 1 && (freq[last] < sqrtu ==> 0 <= hpos[last] < |infreq[freq[last]]|)
    ensures LowTier(LowWithout(infreq, freq, hpos, sqrtu, id), Without(freq, id), Without(hpos, id),
                    Heaped(|freq| - 1, out - {id}), sqrtu, lo)
    ensures |LowWithout(infreq, freq, hpos, sqrtu, id)| == |infreq|
    ensures |LowWithout(infreq, freq, hpos, sqrtu, id)[1]| == |infreq[1]|
  {
    hide LowTier, Below, Heaped, Without;
    WithoutIs(freq, id);
    WithoutIs(hpos, id);
    var last := |freq| - 1;
    LowSizes(infreq, freq, hpos, Heaped(|freq|, out), sqrtu, lo);
    HeapedShrunk(last, out, id);
    if id == last {
      LowTruncated(infreq, freq, hpos, Heaped(last, out - {id}), sqrtu, lo, last);
      assert freq[id := freq[last]] == freq && hpos[id := hpos[last]] == hpos;
    } else {
      HeapedMoved(last, out, id);
      LowAt(infreq, freq, hpos, Heaped(|freq|, out), sqrtu, lo, last);
      LowMoved(infreq, freq, hpos, Heaped(|freq|, out), sqrtu, lo, id, last);
      var infreq' := LowWithout(infreq, freq, hpos, sqrtu, id);
      LowTruncated(infreq', freq[id := freq[last]], hpos[id := hpos[last]], Heaped(last, out - {id}), sqrtu, lo, last);
    }
  }

  /** The high tier likewise. */
  lemma HighHeapMoved(t: Tier, freq: seq<int>, hpos: seq<int>, sqrtu: int, out: set<int>, id: int)
    requires 0 <= id < |freq| && id in out && (|freq| - 1 in out ==> |freq| - 1 == id)
    requires HighTier(t, freq, hpos, Heaped(|freq|, out), sqrtu, -1, -1)
    ensures |hpos| == |freq| && 2 <= sqrtu
    ensures var last := |freq| - 1; id != last && freq[last] >= sqrtu ==> 0 <= hpos[last] < |t.cid|
    ensures HighTier(TierWithout(t, freq, hpos, sqrtu, id), Without(freq, id), Without(hpos, id),
                     Heaped(|freq| - 1, out - {id}), sqrtu, -1, -1)
  {
    hide HighTier, Below, Heaped, Without;
    TierSizes(t, freq, hpos, Heaped(|freq|, out), sqrtu, -1, -1);
    WithoutIs(freq, id);
    WithoutIs(hpos, id);
    var last := |freq| - 1;
    HeapedShrunk(last, out, id);
    if id == last {
      HighTruncated(t, freq, hpos, Heaped(last, out - {id}), sqrtu, last);
      assert freq[id := freq[last]] == freq && hpos[id := hpos[last]] == hpos;
    } else {
      HeapedMoved(last, out, id);
      HighMoved(t, freq, hpos, Heaped(|freq|, out), sqrtu, id, last);
      var t' := TierWithout(t, freq, hpos, sqrtu, id);
      HighTruncated(t', freq[id := freq[last]], hpos[id := hpos[last]], Heaped(last, out - {id}), sqrtu, last);
    }
  }

  lemma HeapedAll(n: int)
    requires 0 <= n
    ensures Heaped(n, {-1}) == Heaped(n, {}) == Below(n)
  {
    hide Below;
  }

  ghost predicate HeadMarks(prev: seq<int>, owner: seq<int>) {
    |prev| == |owner| && forall p :: 0 <= p < |owner| && owner[p] >= 0 && prev[p] < 0 ==> prev[p] == -owner[p] - 1
  }

  /** The occurrence lists: record `id` heads, at `cpos[id]`, the list of the positions it owns. */
  ghost predicate ListsOk(next: seq<int>, prev: seq<int>, cpos: seq<int>, owner: seq<int>, rank: seq<int>) {
    Threaded(next, prev, cpos, owner, rank) && HeadMarks(prev, owner)
  }

  ghost predicate Counted(freq: seq<int>, owner: seq<int>, out: set<int>) {
    forall id :: 0 <= id < |freq| && id !in out ==> freq[id] == |Occ(owner, id)|
  }

  ghost predicate Indexed(idx: Index, pair: seq<Pair>, owner: seq<int>) {
    && (forall id :: 0 <= id < |pair| ==> pair[id] in idx && idx[pair[id]] == Occ(owner, id))
    && (forall pr :: pr in idx ==> pr in pair)
  }

  /** The column once its last row has taken over row `id`. */
  ghost function Without<T>(s: seq<T>, id: int): (r: seq<T>)
    requires 0 <= id < |s|
    ensures |r| == |s| - 1
  {
    s[id := s[|s| - 1]][..|s| - 1]
  }

  lemma WithoutIs<T>(s: seq<T>, id: int)
    requires 0 <= id < |s|
    ensures Without(s, id) == s[id := s[|s| - 1]][..|s| - 1]
  {
  }

  lemma WithoutSame(s: seq<int>, id: int)
    requires 0 <= id < |s|
    ensures Without(s[id := -1], id) == Without(s, id)
  {
  }

  ghost predicate Distinct(pair: seq<Pair>) {
    forall i, j :: 0 <= i < j < |pair| ==> pair[i] != pair[j]
  }

  // ---------- counting ----------

  ghost function OwnedBy(owner: seq<int>, s: set<int>): (r: set<int>) {
    set p | 0 <= p < |owner| && owner[p] in s
  }

  /** Records with at least `k` occurrences each own at least `k` positions apiece. */
  lemma {:induction false} OwnedByMany(owner: seq<int>, s: set<int>, k: int)
    requires forall id :: id in s ==> |Occ(owner, id)| >= k
    ensures |s| * k <= |OwnedBy(owner, s)|
  {
    if s != {} {
      var id := Pick(s);
      OwnedByMany(owner, s - {id}, k);
      assert OwnedBy(owner, s) == OwnedBy(owner, s - {id}) + Occ(owner, id);
      assert OwnedBy(owner, s - {id}) !! Occ(owner, id);
      OneMore(|s - {id}|, k);
    }
  }

  lemma OneMore(n: int, k: int)
    ensures (n + 1) * k == n * k + k
  {
  }

  lemma SquareBound(n: int, k: int)
    requires 1 <= k && 0 <= n
    ensures n * k < k * k ==> n < k
  {
    if n >= k {
      assert n * k == k * k + (n - k) * k;
    }
  }

  /** Fewer than `sqrtu` records can be frequent: their occurrences do not overlap. */
  lemma HighRoom(freq: seq<int>, owner: seq<int>, out: set<int>, sqrtu: int)
    requires Counted(freq, owner, out) && 1 <= sqrtu && |Owned(owner)| < sqrtu * sqrtu
    ensures |HighIds(freq, Heaped(|freq|, out), sqrtu)| < sqrtu
  {
    var s := HighIds(freq, Heaped(|freq|, out), sqrtu);
    OwnedByMany(owner, s, sqrtu);
    SubsetCard(OwnedBy(owner, s), Owned(owner));
    SquareBound(|s|, sqrtu);
  }

  lemma OccAdded(owner: seq<int>, p: int, h: int)
    requires 0 <= p < |owner| && owner[p] < 0 <= h
    ensures Occ(owner[p := h], h) == Occ(owner, h) + {p} && |Occ(owner[p := h], h)| == |Occ(owner, h)| + 1
    ensures forall id :: id != h && id >= 0 ==> Occ(owner[p := h], id) == Occ(owner, id)
    ensures Owned(owner[p := h]) == Owned(owner) + {p}
  {
    assert Occ(owner[p := h], h) == Occ(owner, h) + {p};
    forall id | id != h && id >= 0 ensures Occ(owner[p := h], id) == Occ(owner, id) {
    }
  }

  lemma OccRemoved(owner: seq<int>, p: int)
    requires 0 <= p < |owner| && owner[p] >= 0
    ensures Occ(owner[p := -1], owner[p]) == Occ(owner, owner[p]) - {p}
    ensures |Occ(owner[p := -1], owner[p])| == |Occ(owner, owner[p])| - 1
    ensures forall id :: id != owner[p] && id >= 0 ==> Occ(owner[p := -1], id) == Occ(owner, id)
    ensures Owned(owner[p := -1]) == Owned(owner) - {p}
  {
    assert Occ(owner[p := -1], owner[p]) == Occ(owner, owner[p]) - {p};
    forall id | id != owner[p] && id >= 0 ensures Occ(owner[p := -1], id) == Occ(owner, id) {
    }
  }

  // ---------- effect of the list operations on the index ----------

  lemma PushIndexed(idx: Index, pair: seq<Pair>, owner: seq<int>, h: int, p: int)
    requires Indexed(idx, pair, owner) && Distinct(pair) && 0 <= h < |pair| && 0 <= p < |owner| && owner[p] < 0
    ensures Indexed(idx[pair[h] := idx[pair[h]] + {p}], pair, owner[p := h])
  {
    OccAdded(owner, p, h);
  }

  lemma UnlinkIndexed(idx: Index, pair: seq<Pair>, owner: seq<int>, p: int)
    requires Indexed(idx, pair, owner) && Distinct(pair) && 0 <= p < |owner| && 0 <= owner[p] < |pair|
    ensures var h := owner[p]; Indexed(idx[pair[h] := idx[pair[h]] - {p}], pair, owner[p := -1])
  {
    OccRemoved(owner, p);
  }

  lemma NewIndexed(idx: Index, pair: seq<Pair>, owner: seq<int>, pr: Pair)
    requires Indexed(idx, pair, owner) && pr !in idx && forall p :: 0 <= p < |owner| ==> owner[p] < |pair|
    ensures Indexed(idx[pr := {}], pair + [pr], owner) && pr !in pair
  {
    assert Occ(owner, |pair|) == {};
    forall id | 0 <= id < |pair + [pr]| ensures (pair + [pr])[id] in idx[pr := {}] {
    }
  }

  lemma RemovedIndexed(idx: Index, pair: seq<Pair>, owner: seq<int>, id: int)
    requires Indexed(idx, pair, owner) && Distinct(pair) && 0 <= id < |pair|
    requires forall p :: 0 <= p < |owner| ==> owner[p] != id && owner[p] < |pair|
    ensures var last := |pair| - 1;
            Indexed(idx - {pair[id]}, Without(pair, id), Rename(owner, last, id))
  {
    var last := |pair| - 1;
    var idx', pair', owner' := idx - {pair[id]}, Without(pair, id), Rename(owner, last, id);
    forall i | 0 <= i < |pair'| ensures pair'[i] in idx' && idx'[pair'[i]] == Occ(owner', i) {
      assert Occ(owner', i) == Occ(owner, if i == id then last else i);
    }
    forall pr | pr in idx' ensures pr in pair' {
      var i :| 0 <= i < |pair| && pair[i] == pr;
      assert pair'[if i == last then id else i] == pr;
    }
  }

  lemma RemovedCounted(freq: seq<int>, owner: seq<int>, id: int, out: set<int>)
    requires Counted(freq, owner, out) && 0 <= id < |freq| && id in out && (|freq| - 1 in out ==> |freq| - 1 == id)
    requires forall p :: 0 <= p < |owner| ==> owner[p] != id && owner[p] < |freq|
    ensures var last := |freq| - 1;
            Counted(Without(freq, id), Rename(owner, last, id), out - {id})
  {
    var last := |freq| - 1;
    var owner' := Rename(owner, last, id);
    forall i | 0 <= i < last && i !in out - {id}
      ensures Without(freq, id)[i] == |Occ(owner', i)|
    {
      assert Occ(owner', i) == Occ(owner, if i == id then last else i);
    }
  }

  lemma OwnersBelow(next: seq<int>, prev: seq<int>, head: seq<int>, owner: seq<int>, rank: seq<int>)
    requires Threaded(next, prev, head, owner, rank)
    ensures |next| == |prev| == |owner| == |rank| && forall p :: 0 <= p < |owner| ==> owner[p] < |head|
  {
    hide NextOk, PrevOk, HeadOk, Ordered;
  }

  lemma ListsExtended(next: seq<int>, prev: seq<int>, cpos: seq<int>, owner: seq<int>, rank: seq<int>)
    requires ListsOk(next, prev, cpos, owner, rank)
    ensures ListsOk(next, prev, cpos + [-1], owner, rank)
    ensures |next| == |prev| == |owner| == |rank| && forall p :: 0 <= p < |owner| ==> owner[p] < |cpos|
  {
    OwnersBelow(next, prev, cpos, owner, rank);
    hide Threaded;
    Extended(next, prev, cpos, owner, rank);
  }

  lemma ListsPushed(next: seq<int>, prev: seq<int>, cpos: seq<int>, owner: seq<int>, rank: seq<int>, id: int, p: int,
                    r: int)
    requires ListsOk(next, prev, cpos, owner, rank) && 0 <= id < |cpos| && 0 <= p < |owner| && owner[p] < 0
    requires cpos[id] != -1 ==> 0 <= cpos[id] < |rank| && rank[cpos[id]] < r
    ensures |next| == |prev| == |owner| == |rank| && -1 <= cpos[id] < |next| && cpos[id] != p
    ensures cpos[id] != -1 ==> owner[cpos[id]] == id
    ensures ListsOk(PushNext(next, cpos, id, p), PushPrev(prev, cpos, id, p, -id - 1), cpos[id := p], owner[p := id],
                    rank[p := r])
  {
    HeadOwner(next, prev, cpos, owner, rank, id);
    hide Threaded;
    Pushed(next, prev, cpos, owner, rank, id, p, -id - 1, r);
  }

  lemma HeadOwner(next: seq<int>, prev: seq<int>, cpos: seq<int>, owner: seq<int>, rank: seq<int>, id: int)
    requires Threaded(next, prev, cpos, owner, rank) && 0 <= id < |cpos|
    ensures |next| == |prev| == |owner| == |rank| && forall p :: 0 <= p < |owner| ==> owner[p] < |cpos|
    ensures cpos[id] != -1 ==> 0 <= cpos[id] < |owner| && owner[cpos[id]] == id && prev[cpos[id]] < 0
    ensures cpos[id] == -1 ==> forall p :: 0 <= p < |owner| ==> owner[p] != id
  {
    hide NextOk, PrevOk, Ordered;
  }

  lemma ListsUnlinked(next: seq<int>, prev: seq<int>, cpos: seq<int>, owner: seq<int>, rank: seq<int>, p: int)
    requires ListsOk(next, prev, cpos, owner, rank) && 0 <= p < |owner| && owner[p] >= 0
    ensures |next| == |prev| == |owner| && prev[p] < |next| && -1 <= next[p] < |next| && owner[p] < |cpos|
    ensures prev[p] < 0 ==> prev[p] == -owner[p] - 1
    ensures next[p] != -1 ==> owner[next[p]] == owner[p] && next[p] != p
    ensures prev[p] >= 0 ==> owner[prev[p]] == owner[p] && prev[p] != p
    ensures ListsOk(UnlinkNext(next, prev, p), UnlinkPrev(next, prev, p), UnlinkHead(next, prev, cpos, owner[p], p),
                    owner[p := -1], rank)
  {
    NeighbourOwner(next, prev, cpos, owner, rank, p);
    hide Threaded;
    Unlinked(next, prev, cpos, owner, rank, p);
  }

  lemma NeighbourOwner(next: seq<int>, prev: seq<int>, cpos: seq<int>, owner: seq<int>, rank: seq<int>, p: int)
    requires Threaded(next, prev, cpos, owner, rank) && InList(owner, p)
    ensures |next| == |prev| == |owner| == |rank| && prev[p] < |next| && -1 <= next[p] < |next| && owner[p] < |cpos|
    ensures next[p] != -1 ==> owner[next[p]] == owner[p] && next[p] != p && prev[next[p]] == p
    ensures prev[p] >= 0 ==> owner[prev[p]] == owner[p] && prev[p] != p
  {
    hide HeadOk, Ordered;
  }

  // --- removing a record whose list is empty or a single position ---

  ghost function ClearOwner(owner: seq<int>, cpos: seq<int>, id: int): (r: seq<int>)
    requires 0 <= id < |cpos| && -1 <= cpos[id] < |owner|
  {
    if cpos[id] == -1 then owner else owner[cpos[id] := -1]
  }

  ghost function ClearPrev(prev: seq<int>, cpos: seq<int>, id: int): (r: seq<int>)
    requires 0 <= id < |cpos| && -1 <= cpos[id] < |prev|
  {
    if cpos[id] == -1 then prev else prev[cpos[id] := NULL_FREQ]
  }

  lemma ListsCleared(next: seq<int>, prev: seq<int>, cpos: seq<int>, owner: seq<int>, rank: seq<int>, id: int)
    requires ListsOk(next, prev, cpos, owner, rank) && 0 <= id < |cpos|
    requires forall p :: 0 <= p < |owner| && owner[p] == id ==> p == cpos[id]
    ensures |next| == |prev| == |owner| && -1 <= cpos[id] < |owner|
    ensures cpos[id] != -1 ==> owner[cpos[id]] == id && prev[cpos[id]] == -id - 1 && next[cpos[id]] == -1
    ensures ListsOk(next, ClearPrev(prev, cpos, id), cpos[id := -1], ClearOwner(owner, cpos, id), rank)
    ensures forall p :: 0 <= p < |owner| ==> ClearOwner(owner, cpos, id)[p] != id
  {
    HeadOwner(next, prev, cpos, owner, rank, id);
    var q := cpos[id];
    if q == -1 {
      assert cpos[id := -1] == cpos;
    } else {
      NeighbourOwner(next, prev, cpos, owner, rank, q);
      hide Threaded;
      Unlinked(next, prev, cpos, owner, rank, q);
      Loosened(next, prev, cpos[id := -1], owner[q := -1], rank, q, next[q], NULL_FREQ);
      assert next[q := next[q]] == next;
    }
  }

  ghost function MovePrev(prev: seq<int>, cpos: seq<int>, id: int): (r: seq<int>)
  {
    var last := |cpos| - 1;
    if 0 <= id < last && 0 <= cpos[last] < |prev| then prev[cpos[last] := -id - 1] else prev
  }

  lemma MovePrevSame(prev: seq<int>, cpos: seq<int>, id: int)
    requires 0 <= id < |cpos|
    ensures MovePrev(prev, cpos[id := -1], id) == MovePrev(prev, cpos, id)
  {
  }

  lemma ListsMoved(next: seq<int>, prev: seq<int>, cpos: seq<int>, owner: seq<int>, rank: seq<int>, id: int)
    requires ListsOk(next, prev, cpos, owner, rank) && 0 <= id < |cpos| && cpos[id] == -1
    ensures -1 <= cpos[|cpos| - 1] < |prev|
    ensures cpos[|cpos| - 1] != -1 ==> owner[cpos[|cpos| - 1]] == |cpos| - 1
    ensures var last := |cpos| - 1;
            ListsOk(next, MovePrev(prev, cpos, id), Without(cpos, id), Rename(owner, last, id), rank)
  {
    var last := |cpos| - 1;
    HeadOwner(next, prev, cpos, owner, rank, id);
    HeadOwner(next, prev, cpos, owner, rank, last);
    Renamed(next, prev, cpos, owner, rank, id);
    MarksMoved(next, prev, cpos, owner, rank, id);
    var owner', cpos' := Rename(owner, last, id), Without(cpos, id);
    hide Threaded, HeadMarks;
    if id != last && cpos[last] != -1 {
      Remarked(next, prev, cpos', owner', rank, cpos[last], -id - 1);
    }
  }

  lemma MarksMoved(next: seq<int>, prev: seq<int>, cpos: seq<int>, owner: seq<int>, rank: seq<int>, id: int)
    requires ListsOk(next, prev, cpos, owner, rank) && 0 <= id < |cpos| && cpos[id] == -1
    requires -1 <= cpos[|cpos| - 1] < |prev| && |owner| == |prev|
    ensures HeadMarks(MovePrev(prev, cpos, id), Rename(owner, |cpos| - 1, id))
  {
    forall p | 0 <= p < |owner| && owner[p] == |cpos| - 1 && prev[p] < 0 ensures p == cpos[|cpos| - 1] {
      HeadIsUnique(next, prev, cpos, owner, rank, p);
    }
    ListsFacts(next, prev, cpos, owner, rank, id);
    hide Threaded;
  }

  lemma HeadIsUnique(next: seq<int>, prev: seq<int>, cpos: seq<int>, owner: seq<int>, rank: seq<int>, p: int)
    requires Threaded(next, prev, cpos, owner, rank) && InList(owner, p) && prev[p] < 0
    ensures owner[p] < |cpos| && p == cpos[owner[p]]
  {
    hide NextOk, PrevOk, Ordered;
  }

  lemma ClearedValues(owner: seq<int>, prev: seq<int>, cpos: seq<int>, id: int)
    requires 0 <= id < |cpos| && -1 <= cpos[id] < |owner| == |prev|
    ensures |ClearOwner(owner, cpos, id)| == |owner|
    ensures cpos[id] == -1 ==> ClearOwner(owner, cpos, id) == owner && ClearPrev(prev, cpos, id) == prev
    ensures cpos[id] != -1 ==>
              ClearOwner(owner, cpos, id) == owner[cpos[id] := -1]
              && ClearPrev(prev, cpos, id) == prev[cpos[id] := NULL_FREQ]
  {
  }

  lemma ClearedIndex(idx: Index, pair: seq<Pair>, freq: seq<int>, owner: seq<int>, cpos: seq<int>, id: int,
                     out: set<int>)
    requires Indexed(idx, pair, owner) && Distinct(pair) && Counted(freq, owner, out) && id in out
    requires |pair| == |freq| == |cpos| && 0 <= id < |pair| && -1 <= cpos[id] < |owner|
    requires cpos[id] != -1 ==> owner[cpos[id]] == id
    requires forall p :: 0 <= p < |owner| && owner[p] == id ==> p == cpos[id]
    ensures pair[id] in idx && Indexed(idx[pair[id] := {}], pair, ClearOwner(owner, cpos, id))
    ensures Counted(freq, ClearOwner(owner, cpos, id), out)
  {
    if cpos[id] == -1 {
      assert Occ(owner, id) == {};
      assert idx[pair[id] := {}] == idx;
    } else {
      OccRemoved(owner, cpos[id]);
      UnlinkIndexed(idx, pair, owner, cpos[id]);
      assert idx[pair[id]] - {cpos[id]} == {};
    }
  }

  lemma MovePrevFrame(prev: seq<int>, cpos: seq<int>, owner: seq<int>, id: int)
    requires 0 <= id < |cpos| && -1 <= cpos[|cpos| - 1] < |prev| == |owner|
    requires cpos[|cpos| - 1] != -1 ==> owner[cpos[|cpos| - 1]] == |cpos| - 1
    ensures |MovePrev(prev, cpos, id)| == |prev|
    ensures forall x :: 0 <= x < |owner| && Rename(owner, |cpos| - 1, id)[x] < 0 ==>
              MovePrev(prev, cpos, id)[x] == prev[x]
    ensures id == |cpos| - 1 || cpos[|cpos| - 1] == -1 ==> MovePrev(prev, cpos, id) == prev
    ensures id != |cpos| - 1 && cpos[|cpos| - 1] != -1 ==> MovePrev(prev, cpos, id) == prev[cpos[|cpos| - 1] := -id - 1]
  {
  }

  /** Positions that a removal leaves without owner have been cut off; the others were free before. */
  lemma RemovalFrame(owner: seq<int>, cpos: seq<int>, id: int)
    requires 0 <= id < |cpos| && -1 <= cpos[id] < |owner| && (cpos[id] != -1 ==> owner[cpos[id]] == id)
    ensures var owner' := Rename(ClearOwner(owner, cpos, id), |cpos| - 1, id);
            |owner'| == |owner| && forall x :: 0 <= x < |owner| ==> (owner'[x] < 0 <==> owner[x] < 0 || x == cpos[id])
  {
  }

  lemma PushCounted(freq: seq<int>, owner: seq<int>, out: set<int>, id: int, p: int)
    requires 0 <= id < |freq| && id !in out && 0 <= p < |owner| && owner[p] < 0
    requires Counted(freq[id := freq[id] - 1], owner, out)
    ensures Counted(freq, owner[p := id], out)
  {
    OccAdded(owner, p, id);
    forall i | 0 <= i < |freq| && i !in out ensures freq[i] == |Occ(owner[p := id], i)| {
      assert freq[id := freq[id] - 1][i] == |Occ(owner, i)|;
    }
  }

  lemma UnlinkCounted(freq: seq<int>, owner: seq<int>, out: set<int>, p: int)
    requires 0 <= p < |owner| && 0 <= owner[p] < |freq|
    requires var id := owner[p]; Counted(if id in out then freq else freq[id := freq[id] + 1], owner, out)
    ensures Counted(freq, owner[p := -1], out)
  {
    var id := owner[p];
    OccRemoved(owner, p);
    forall i | 0 <= i < |freq| && i !in out ensures freq[i] == |Occ(owner[p := -1], i)| {
      assert i == id || freq[i] == |Occ(owner, i)|;
      assert i == id ==> freq[id := freq[id] + 1][i] == |Occ(owner, i)|;
    }
  }

  lemma ListSizes(next: seq<int>, prev: seq<int>, cpos: seq<int>, owner: seq<int>, rank: seq<int>)
    requires ListsOk(next, prev, cpos, owner, rank)
    ensures |next| == |prev| == |owner| == |rank| && forall p :: 0 <= p < |owner| ==> owner[p] < |cpos|
  {
    OwnersBelow(next, prev, cpos, owner, rank);
  }

  lemma ListHead(next: seq<int>, prev: seq<int>, cpos: seq<int>, owner: seq<int>, rank: seq<int>, id: int)
    requires ListsOk(next, prev, cpos, owner, rank) && 0 <= id < |cpos|
    ensures |next| == |prev| == |owner| == |rank| && -1 <= cpos[id] < |owner|
    ensures cpos[id] != -1 ==> owner[cpos[id]] == id && prev[cpos[id]] == -id - 1
    ensures cpos[id] == -1 <==> Occ(owner, id) == {}
  {
    HeadOwner(next, prev, cpos, owner, rank, id);
    if cpos[id] == -1 {
      assert Occ(owner, id) == {};
    } else {
      assert cpos[id] in Occ(owner, id);
    }
  }

  lemma ListsFacts(next: seq<int>, prev: seq<int>, cpos: seq<int>, owner: seq<int>, rank: seq<int>, id: int)
    requires ListsOk(next, prev, cpos, owner, rank) && 0 <= id < |cpos| && cpos[id] == -1
    ensures |next| == |prev| == |owner| == |rank|
    ensures forall p :: 0 <= p < |owner| ==> owner[p] != id && owner[p] < |cpos|
  {
    HeadOwner(next, prev, cpos, owner, rank, id);
  }

  lemma EmptyLists(u: int)
    requires 0 <= u
    ensures ListsOk(seq(u, _ => 0), seq(u, _ => 0), [], seq(u, _ => -1), seq(u, _ => 0))
    ensures Indexed(map[], [], seq(u, _ => -1)) && Counted([], seq(u, _ => -1), {-1})
    ensures Below(0) == {} == Heaped(0, {-1})
  {
  }

  lemma IndexedAt(idx: Index, pair: seq<Pair>, owner: seq<int>, id: int)
    requires Indexed(idx, pair, owner) && 0 <= id < |pair|
    ensures pair[id] in idx && idx[pair[id]] == Occ(owner, id)
  {
  }

  lemma SearchFacts(idx: Index, pair: seq<Pair>, owner: seq<int>, pr: Pair)
    requires Indexed(idx, pair, owner)
    ensures (forall i :: i in Below(|pair|) ==> pair[i] != pr) <==> pr !in idx
    ensures forall i :: 0 <= i < |pair| && pair[i] == pr ==> pr in idx && idx[pr] == Occ(owner, i)
  {
    hide Below;
    if pr in idx {
      var i :| 0 <= i < |pair| && pair[i] == pr;
      assert i in Below(|pair|);
    }
  }

  lemma DecCounted(freq: seq<int>, owner: seq<int>, out: set<int>, id: int)
    requires Counted(freq, owner, out) && 0 <= id < |freq|
    ensures Counted(freq[id := freq[id] - 1], owner, out + {id})
  {
  }

  lemma MoreOut(freq: seq<int>, owner: seq<int>, out: set<int>, id: int)
    requires Counted(freq, owner, out)
    ensures Counted(freq, owner, out + {id})
  {
  }

  lemma ExtractCounted(freq: seq<int>, owner: seq<int>, oid: int)
    requires Counted(freq, owner, {-1})
    ensures Counted(freq, owner, {oid})
  {
  }

  lemma BelowEmpty(n: int)
    requires 0 <= n
    ensures Below(n) == {} <==> n == 0
  {
    if n > 0 {
      assert 0 in Below(n);
    }
  }

  lemma HeapedOff(n: int, oid: int)
    requires 0 <= n
    ensures Below(n) - {oid} == Heaped(n, {oid})
  {
  }

  lemma OnlyOcc(next: seq<int>, prev: seq<int>, cpos: seq<int>, owner: seq<int>, rank: seq<int>, id: int)
    requires ListsOk(next, prev, cpos, owner, rank) && 0 <= id < |cpos| && |Occ(owner, id)| == 1
    ensures forall p :: 0 <= p < |owner| && owner[p] == id ==> p == cpos[id]
  {
    forall p | 0 <= p < |owner| && owner[p] == id ensures p == cpos[id] {
      SingleOcc(next, prev, cpos, owner, rank, id, p);
    }
  }

  lemma AppendCounted(freq: seq<int>, owner: seq<int>, out: set<int>)
    requires Counted(freq, owner, out) && forall p :: 0 <= p < |owner| ==> owner[p] < |freq|
    ensures Counted(freq + [0], owner, out)
  {
    assert Occ(owner, |freq|) == {};
  }

  /** A record on the heap has occurrences. */
  lemma HeapedOccurs(infreq: seq<seq<int>>, freq: seq<int>, hpos: seq<int>, sqrtu: int, owner: seq<int>,
                     out: set<int>, id: int)
    requires LowTier(infreq, freq, hpos, Heaped(|freq|, out), sqrtu, 0) && Counted(freq, owner, out)
    requires 0 <= id < |freq| && id !in out
    ensures freq[id] == |Occ(owner, id)| >= 1 && Occ(owner, id) != {}
  {
    HeapedIn(|freq|, out, id);
    LowAt(infreq, freq, hpos, Heaped(|freq|, out), sqrtu, 0, id);
    hide LowTier;
  }

  /** A single occurrence is the head of its list. */
  lemma SingleOcc(next: seq<int>, prev: seq<int>, cpos: seq<int>, owner: seq<int>, rank: seq<int>, id: int, q: int)
    requires ListsOk(next, prev, cpos, owner, rank) && 0 <= id < |cpos| && 0 <= q < |owner| && owner[q] == id
    requires |Occ(owner, id)| == 1
    ensures forall p :: 0 <= p < |owner| && owner[p] == id ==> p == cpos[id]
    ensures q == cpos[id]
  {
    ListHead(next, prev, cpos, owner, rank, id);
    var s := Occ(owner, id);
    assert q in s && cpos[id] in s;
    forall p | 0 <= p < |owner| && owner[p] == id ensures p == cpos[id] {
      OnlyElement(s, p, cpos[id]);
    }
  }

  lemma PrevMark(next: seq<int>, prev: seq<int>, cpos: seq<int>, owner: seq<int>, rank: seq<int>, q: int)
    requires ListsOk(next, prev, cpos, owner, rank) && 0 <= q < |owner| && owner[q] >= 0 && |cpos| <= MAX_INT
    ensures q < |prev| && prev[q] != NULL_FREQ
  {
    OwnersBelow(next, prev, cpos, owner, rank);
    hide Threaded;
  }

  /** Frequencies of the heap's records are the sizes of the position sets. */
  lemma HeapView(idx: Index, pair: seq<Pair>, freq: seq<int>, owner: seq<int>, out: set<int>)
    requires Indexed(idx, pair, owner) && Counted(freq, owner, out) && |pair| == |freq|
    ensures forall i :: i in Heaped(|pair|, out) ==> 0 <= i < |pair| && pair[i] in idx && |idx[pair[i]]| == freq[i]
    ensures forall pr :: pr in idx ==> exists i :: i in Below(|pair|) && pair[i] == pr
    ensures idx == map[] <==> |pair| == 0
  {
    hide Below;
    forall pr | pr in idx ensures exists i :: i in Below(|pair|) && pair[i] == pr {
      var i :| 0 <= i < |pair| && pair[i] == pr;
      assert i in Below(|pair|);
    }
    if |pair| > 0 {
      assert pair[0] in idx;
    } else {
      assert idx.Keys == {};
    }
  }

  // --- moving an occurrence to another position ---

  lemma ListsRelocated(next: seq<int>, prev: seq<int>, cpos: seq<int>, owner: seq<int>, rank: seq<int>, i: int, j: int)
    requires ListsOk(next, prev, cpos, owner, rank) && 0 <= i < |owner| && owner[i] >= 0 && 0 <= j < |owner|
    requires owner[j] < 0
    ensures |next| == |prev| == |owner| == |rank| && prev[i] < |next| && -1 <= next[i] < |next| && owner[i] < |cpos|
    ensures prev[i] < 0 ==> prev[i] == -owner[i] - 1
    ensures next[i] != -1 ==> owner[next[i]] >= 0
    ensures prev[i] >= 0 ==> owner[prev[i]] >= 0
    ensures ListsOk(RelocateNext(next, prev, i, j), RelocatePrev(next, prev, i, j),
                    RelocateHead(prev, cpos, owner[i], i, j),
                    owner[j := owner[i]][i := -1], rank[j := rank[i]])
  {
    hide Threaded;
    NeighbourOwner(next, prev, cpos, owner, rank, i);
    Relocated(next, prev, cpos, owner, rank, i, j);
  }

  lemma CellBounds(next: seq<int>, prev: seq<int>, cpos: seq<int>, owner: seq<int>, rank: seq<int>, i: int, j: int)
    requires ListsOk(next, prev, cpos, owner, rank) && 0 <= i < |owner| && 0 <= j < |owner| && (i != j ==> owner[j] < 0)
    requires |next| == |prev| == |owner| && |cpos| <= MAX_INT
    requires (owner[i] < 0 ==> prev[i] == NULL_FREQ && next[i] == -1)
    ensures -1 <= next[i] < |next| && prev[i] < |next| && prev[i] != j
    ensures prev[i] < 0 && prev[i] != NULL_FREQ ==> owner[i] >= 0 && 0 <= -prev[i] - 1 == owner[i] < |cpos|
    ensures owner[i] >= 0 ==> prev[i] != NULL_FREQ
  {
    if owner[i] >= 0 {
      NeighbourOwner(next, prev, cpos, owner, rank, i);
    }
    hide Threaded;
  }

  /** Moving a list cell to where it is changes nothing. */
  lemma SelfMove(next: seq<int>, prev: seq<int>, cpos: seq<int>, owner: seq<int>, rank: seq<int>, i: int)
    requires ListsOk(next, prev, cpos, owner, rank) && 0 <= i < |owner| && owner[i] >= 0
    ensures |next| == |prev| == |owner| && prev[i] < |next| && -1 <= next[i] < |next| && owner[i] < |cpos|
    ensures RelocateNext(next, prev, i, i) == next && RelocatePrev(next, prev, i, i) == prev
    ensures prev[i] < 0 ==> prev[i] == -owner[i] - 1 && cpos[owner[i] := i] == cpos
  {
    hide Ordered;
  }

  lemma ListsLoosened(next: seq<int>, prev: seq<int>, cpos: seq<int>, owner: seq<int>, rank: seq<int>, p: int,
                      a: int, b: int)
    requires ListsOk(next, prev, cpos, owner, rank) && 0 <= p < |owner| && owner[p] < 0
    ensures |next| == |prev| == |owner| && ListsOk(next[p := a], prev[p := b], cpos, owner, rank)
  {
    OwnersBelow(next, prev, cpos, owner, rank);
    hide Threaded;
    Loosened(next, prev, cpos, owner, rank, p, a, b);
  }

  lemma ListsTruncated(next: seq<int>, prev: seq<int>, cpos: seq<int>, owner: seq<int>, rank: seq<int>, n: int)
    requires ListsOk(next, prev, cpos, owner, rank) && 0 <= n <= |owner|
    requires forall p :: n <= p < |owner| ==> owner[p] < 0
    ensures |next| == |prev| == |owner| == |rank| && ListsOk(next[..n], prev[..n], cpos, owner[..n], rank[..n])
  {
    OwnersBelow(next, prev, cpos, owner, rank);
    hide Threaded;
    Truncated(next, prev, cpos, owner, rank, n);
  }

  /** Position `i` of a set, if there, becomes position `j`. */
  ghost function Shift(s: set<int>, i: int, j: int): (r: set<int>) {
    if i in s then s - {i} + {j} else s
  }

  ghost function ShiftAll(idx: Index, i: int, j: int): (r: Index) {
    map pr | pr in idx :: Shift(idx[pr], i, j)
  }

  lemma RelocatedIndex(idx: Index, pair: seq<Pair>, freq: seq<int>, owner: seq<int>, i: int, j: int)
    requires Indexed(idx, pair, owner) && Counted(freq, owner, {-1}) && 0 <= i < |owner| && 0 <= j < |owner|
    requires owner[i] >= 0 && owner[j] < 0
    ensures Indexed(ShiftAll(idx, i, j), pair, owner[j := owner[i]][i := -1])
    ensures Counted(freq, owner[j := owner[i]][i := -1], {-1})
  {
    var owner' := owner[j := owner[i]][i := -1];
    forall id | id >= 0
      ensures Occ(owner', id) == Shift(Occ(owner, id), i, j) && |Occ(owner', id)| == |Occ(owner, id)|
    {
      assert Occ(owner', id) == Shift(Occ(owner, id), i, j);
    }
  }

  lemma UnownedIndex(idx: Index, pair: seq<Pair>, owner: seq<int>, i: int, j: int)
    requires Indexed(idx, pair, owner) && 0 <= i < |owner| && (owner[i] < 0 || i == j)
    requires forall p :: 0 <= p < |owner| ==> owner[p] < |pair|
    ensures ShiftAll(idx, i, j) == idx
  {
    forall pr | pr in idx ensures Shift(idx[pr], i, j) == idx[pr] {
      var id :| 0 <= id < |pair| && pair[id] == pr;
      assert idx[pr] == Occ(owner, id);
    }
  }

  lemma TruncatedIndex(idx: Index, pair: seq<Pair>, freq: seq<int>, owner: seq<int>, n: int)
    requires Indexed(idx, pair, owner) && Counted(freq, owner, {-1})
    requires 0 <= n <= |owner| && forall p :: n <= p < |owner| ==> owner[p] < 0
    ensures Indexed(idx, pair, owner[..n]) && Counted(freq, owner[..n], {-1})
  {
    forall id | id >= 0 ensures Occ(owner[..n], id) == Occ(owner, id) {
    }
  }

  /** There are as many records as recorded pairs. */
  lemma KeysCard(idx: Index, pair: seq<Pair>, owner: seq<int>)
    requires Indexed(idx, pair, owner) && Distinct(pair)
    ensures |idx.Keys| == |pair|
  {
    assert idx.Keys == set pr | pr in pair;
    DistinctCard(pair);
  }

  lemma {:induction false} DistinctCard(pair: seq<Pair>)
    requires Distinct(pair)
    ensures |set pr | pr in pair| == |pair|
  {
    if pair != [] {
      var front, x := pair[..|pair| - 1], pair[|pair| - 1];
      DistinctCard(front);
      assert pair == front + [x];
      assert (set pr | pr in pair) == (set pr | pr in front) + {x};
      assert x !in front;
    }
  }

  /** Each record on the heap owns a position of its own. */
  lemma RecordsBound(freq: seq<int>, owner: seq<int>, cur: int)
    requires forall id :: 0 <= id < |freq| && id != cur ==> Occ(owner, id) != {}
    ensures |freq| <= |Owned(owner)| + 1
  {
    var ids := Below(|freq|) - {cur};
    var m := map id | id in ids :: var p :| p in Occ(owner, id); p;
    assert m.Keys == ids;
    InjectionCard(m, Owned(owner));
  }

  lemma HeapedOccurAll(infreq: seq<seq<int>>, freq: seq<int>, hpos: seq<int>, sqrtu: int, owner: seq<int>,
                       out: set<int>)
    requires LowTier(infreq, freq, hpos, Heaped(|freq|, out), sqrtu, 0) && Counted(freq, owner, out)
    ensures forall id :: 0 <= id < |freq| && id !in out ==> Occ(owner, id) != {}
  {
    forall id | 0 <= id < |freq| && id !in out ensures Occ(owner, id) != {} {
      HeapedOccurs(infreq, freq, hpos, sqrtu, owner, out, id);
    }
  }

  /** A position has an owner exactly when it is recorded under some pair. */
  lemma OwnerIndexed(idx: Index, pair: seq<Pair>, owner: seq<int>, p: int)
    requires Indexed(idx, pair, owner) && 0 <= p < |owner| && owner[p] < |pair|
    ensures owner[p] >= 0 ==> pair[owner[p]] in idx && p in idx[pair[owner[p]]]
  {
  }

  lemma IndexedOwner(idx: Index, pair: seq<Pair>, owner: seq<int>, pr: Pair, p: int)
    requires Indexed(idx, pair, owner) && pr in idx && p in idx[pr]
    ensures 0 <= p < |owner| && 0 <= owner[p] < |pair| && pair[owner[p]] == pr
  {
    var i :| 0 <= i < |pair| && pair[i] == pr;
    assert p in Occ(owner, i);
  }

  lemma HeldDistinct(table: seq<int>, pair: seq<Pair>, kpos: seq<int>)
    requires Holds(table, pair, kpos, Below(|pair|))
    ensures Distinct(pair)
  {
    hide Filed;
  }

  class PairIndex {
    const rec: Records
    const hash: PairHash
    const heap: FreqHeap
    var next: seq<int>
    var prev: seq<int>
    ghost var owner: seq<int>
    ghost var rank: seq<int>
    ghost var idx: Index

    /** All structures agree, except that frequencies need not match the occurrence counts.  The records `out`
        are off the heap; `lo` entries of the array of frequency 1 have been purged. */
    ghost predicate Linked(out: set<int>, lo: int)
      reads this, rec, hash, heap
    {
      && hash.rec == rec && heap.rec == rec
      && rec.Aligned() && |rec.pair| <= MAX_INT
      && hash.Valid(Below(|rec.pair|))
      && heap.Valid(Heaped(|rec.pair|, out), lo)
      && ListsOk(next, prev, rec.cpos, owner, rank)
      && Indexed(idx, rec.pair, owner)
    }

    ghost predicate Valid(cur: int)
      reads this, rec, hash, heap
    {
      Linked({cur}, 0) && Counted(rec.freq, owner, {cur}) && -1 <= cur < |rec.pair|
    }

    /** Empty structures for a text of `u` symbols. */
    constructor (u: int)
      requires 0 <= u
      ensures Valid(-1) && fresh(rec) && fresh(hash) && fresh(heap)
      ensures rec.pair == [] && idx == map[] && |next| == u && owner == seq(u, _ => -1)
      ensures heap.max == heap.sqrtu && heap.sqrtu * heap.sqrtu >= u
      ensures |Spare(hash.table)| == |hash.table| == 131072 && Unmarked(hash.table)
    {
      hide LowTier, HighTier, Holds, IsPower, TopPower, Spare, Unmarked, ListsOk, Indexed, Counted, Below, Heaped;
      TopOfInitial();
      EmptyLists(u);
      var r := new Records();
      rec := r;
      heap := new FreqHeap(u, r);
      hash := new PairHash(256 * 256, r);
      next, prev := seq(u, _ => 0), seq(u, _ => 0);
      owner, rank, idx := seq(u, _ => -1), seq(u, _ => 0), map[];
    }

    /** Appends a record for a new pair and files it in the hash table and the heap, with frequency 1. */
    method InsertRecord(pr: Pair, ghost cur: int) returns (id: int)
      requires Valid(cur) && pr !in idx && |rec.pair| < MAX_INT
      modifies rec, hash, heap, this`idx
      ensures Linked({cur}, 0) && id == old(|rec.pair|) && rec.pair == old(rec.pair) + [pr]
      ensures rec.freq == old(rec.freq) + [1] && rec.cpos == old(rec.cpos) + [-1]
      ensures idx == old(idx)[pr := {}]
      ensures |Spare(hash.table)| >= old(|Spare(hash.table)|) - 1
      ensures (old(Unmarked(hash.table)) ==> Unmarked(hash.table)) && |hash.table| >= old(|hash.table|)
      ensures heap.sqrtu == old(heap.sqrtu) && heap.max == old(heap.max)
    {
      hide LowTier, HighTier, Holds, ListsOk, Indexed, Counted, IsPower, Spare, Unmarked, Below, Heaped;
      id := |rec.pair|;
      HeapedGrown(id, {cur});
      AppendRow(pr, cur);
      hash.Insert(id, Below(id));
      heap.Insert(id, Heaped(id, {cur}));
    }

    /** A new row of records, not yet filed anywhere. */
    method AppendRow(pr: Pair, ghost cur: int)
      requires Valid(cur) && pr !in idx
      modifies rec, this`idx
      ensures rec.Aligned() && rec.pair == old(rec.pair) + [pr] && pr !in old(rec.pair)
      ensures rec.freq == old(rec.freq) + [0] && rec.cpos == old(rec.cpos) + [-1]
      ensures hash.Valid(Below(|rec.pair| - 1)) && heap.Valid(Heaped(|rec.pair| - 1, {cur}), 0)
      ensures ListsOk(next, prev, rec.cpos, owner, rank)
      ensures idx == old(idx)[pr := {}] && Indexed(idx, rec.pair, owner)
    {
      hide LowTier, HighTier, Holds, ListsOk, Indexed, Counted, IsPower;
      HoldsExtended(hash.table, rec.pair, rec.kpos, Below(|rec.pair|), pr, 0);
      LowExtended(heap.infreq, rec.freq, rec.hpos, Heaped(|rec.pair|, {cur}), heap.sqrtu, 0, 0);
      HighExtended(heap.hi, rec.freq, rec.hpos, Heaped(|rec.pair|, {cur}), heap.sqrtu, 0, 0);
      ListsExtended(next, prev, rec.cpos, owner, rank);
      NewIndexed(idx, rec.pair, owner, pr);
      rec.pair := rec.pair + [pr];
      rec.freq, rec.cpos, rec.hpos, rec.kpos := rec.freq + [0], rec.cpos + [-1], rec.hpos + [0], rec.kpos + [0];
      idx := idx[pr := {}];
    }

    /** Record `id` is gone from the hash table, the heap and the lists, but still has its row. */
    ghost predicate Dead(id: int, out: set<int>, lo: int)
      reads this, rec, hash, heap
    {
      && hash.rec == rec && heap.rec == rec
      && rec.Aligned() && |rec.pair| <= MAX_INT && 0 <= id < |rec.pair|
      && hash.Valid(Below(|rec.pair|) - {id})
      && heap.Valid(Heaped(|rec.pair|, out), lo)
      && ListsOk(next, prev, rec.cpos[id := -1], owner, rank)
      && Indexed(idx, rec.pair, owner) && Distinct(rec.pair)
      && Counted(rec.freq, owner, out)
    }

    /** First half of a removal: the hash cell is marked, the only occurrence, if any, is cut off. */
    method Forget(id: int, ghost out: set<int>, ghost lo: int)
      requires Linked(out, lo) && Counted(rec.freq, owner, out) && 0 <= id < |rec.pair| && id in out
      requires forall p :: 0 <= p < |owner| && owner[p] == id ==> p == rec.cpos[id]
      modifies hash, this`prev, this`owner, this`idx
      ensures Dead(id, out, lo) && -1 <= rec.cpos[id] < |owner| == old(|owner|) == |prev| == |next|
      ensures owner == ClearOwner(old(owner), rec.cpos, id) && old(|prev|) == |prev|
              && prev == ClearPrev(old(prev), rec.cpos, id)
      ensures rec.cpos[id] != -1 ==> old(owner)[rec.cpos[id]] == id && next[rec.cpos[id]] == -1
      ensures idx.Keys == old(idx.Keys) && rec.pair[id] in idx
      ensures forall pr :: pr in idx && pr != rec.pair[id] ==> idx[pr] == old(idx)[pr]
      ensures |Spare(hash.table)| == old(|Spare(hash.table)|)
    {
      hide LowTier, HighTier, Holds, ListsOk, Indexed, Counted, IsPower, Spare, Below, Heaped, ClearOwner, ClearPrev,
           Distinct;
      HeapedIn(|rec.pair|, out, id);
      HeldDistinct(hash.table, rec.pair, rec.kpos);
      ListsCleared(next, prev, rec.cpos, owner, rank, id);
      ClearedIndex(idx, rec.pair, rec.freq, owner, rec.cpos, id, out);
      ClearedValues(owner, prev, rec.cpos, id);
      hash.Delete(id, Below(|rec.pair|));
      var q := rec.cpos[id];
      idx := idx[rec.pair[id] := {}];
      owner := ClearOwner(owner, rec.cpos, id);
      if q != -1 && prev[q] == -id - 1 {
        prev := prev[q := NULL_FREQ];
      }
    }

    /** Record `id` has an entry in the tier of its frequency. */
    ghost predicate InHeap(id: int)
      requires rec.Aligned() && 0 <= id < |rec.pair|
      reads rec, heap
    {
      var f, k := rec.freq[id], rec.hpos[id];
      if f < heap.sqrtu then 0 <= f < |heap.infreq| && k < |heap.infreq[f]| else k < |heap.hi.cid|
    }

    /** The writes of a removal: the last record is copied over row `id`, its hash cell, heap entry and list
        head are pointed at `id`, and the last row goes. */
    method CopyLast(id: int)
      requires hash.rec == rec && heap.rec == rec && rec.Aligned() && 0 <= id < |rec.pair|
      requires var last := |rec.pair| - 1;
               id != last ==> && 0 <= rec.kpos[last] < |hash.table| && 0 <= rec.hpos[last]
                              && -1 <= rec.cpos[last] < |prev| && InHeap(last)
      modifies rec, hash`table, heap`infreq, heap`hi, this`prev
      ensures rec.Aligned() && |rec.pair| == old(|rec.pair|) - 1
      ensures && rec.pair == Without(old(rec.pair), id)
              && rec.freq == Without(old(rec.freq), id)
              && rec.cpos == Without(old(rec.cpos), id)
              && rec.hpos == Without(old(rec.hpos), id)
              && rec.kpos == Without(old(rec.kpos), id)
      ensures hash.table == TableWithout(old(hash.table), old(rec.kpos), id)
      ensures heap.infreq == LowWithout(old(heap.infreq), old(rec.freq), old(rec.hpos), heap.sqrtu, id)
      ensures heap.hi == TierWithout(old(heap.hi), old(rec.freq), old(rec.hpos), heap.sqrtu, id)
      ensures prev == MovePrev(old(prev), old(rec.cpos), id)
    {
      hide Without;
      WithoutIs(rec.pair, id);
      WithoutIs(rec.freq, id);
      WithoutIs(rec.cpos, id);
      WithoutIs(rec.hpos, id);
      WithoutIs(rec.kpos, id);
      var last := |rec.pair| - 1;
      CopyRow(id, last);
      if id != last {
        hash.Repos(id);
        heap.Repos(id);
        if rec.cpos[id] != -1 {
          prev := prev[rec.cpos[id] := -id - 1];
        }
      }
      DropRow();
    }

    /** Row `last` of the records is copied over row `id`. */
    method CopyRow(id: int, last: int)
      requires rec.Aligned() && 0 <= id < |rec.pair| && 0 <= last < |rec.pair|
      modifies rec
      ensures rec.Aligned() && rec.pair == old(rec.pair)[id := old(rec.pair)[last]]
      ensures rec.freq == old(rec.freq)[id := old(rec.freq)[last]]
      ensures rec.cpos == old(rec.cpos)[id := old(rec.cpos)[last]]
      ensures rec.hpos == old(rec.hpos)[id := old(rec.hpos)[last]]
      ensures rec.kpos == old(rec.kpos)[id := old(rec.kpos)[last]]
    {
      rec.pair, rec.freq, rec.cpos := rec.pair[id := rec.pair[last]], rec.freq[id := rec.freq[last]],
          rec.cpos[id := rec.cpos[last]];
      rec.hpos, rec.kpos := rec.hpos[id := rec.hpos[last]], rec.kpos[id := rec.kpos[last]];
    }

    /** The last row of the records goes. */
    method DropRow()
      requires rec.Aligned() && rec.pair != []
      modifies rec
      ensures rec.Aligned() && rec.pair == old(rec.pair)[..|old(rec.pair)| - 1]
      ensures rec.freq == old(rec.freq)[..|old(rec.freq)| - 1]
      ensures rec.cpos == old(rec.cpos)[..|old(rec.cpos)| - 1] && rec.hpos == old(rec.hpos)[..|old(rec.hpos)| - 1]
      ensures rec.kpos == old(rec.kpos)[..|old(rec.kpos)| - 1]
    {
      var last := |rec.pair| - 1;
      rec.pair, rec.freq, rec.cpos := rec.pair[..last], rec.freq[..last], rec.cpos[..last];
      rec.hpos, rec.kpos := rec.hpos[..last], rec.kpos[..last];
    }

    /** Second half of a removal: the last record takes over row `id`, and every pointer to it follows. */
    method MoveLast(id: int, ghost out: set<int>, ghost lo: int)
      requires Dead(id, out, lo) && id in out && (|rec.pair| - 1 in out ==> |rec.pair| - 1 == id)
      modifies rec, hash, heap, this`prev, this`owner, this`idx
      ensures Linked(out - {id}, lo) && Counted(rec.freq, owner, out - {id})
      ensures var last := old(|rec.pair|) - 1;
              && rec.pair == Without(old(rec.pair), id) && |old(rec.freq)| == last + 1
              && rec.freq == Without(old(rec.freq), id) && owner == Rename(old(owner), last, id)
      ensures idx == old(idx) - {old(rec.pair)[id]}
      ensures |prev| == old(|prev|) == |owner|
      ensures forall x :: 0 <= x < |owner| && owner[x] < 0 ==> prev[x] == old(prev)[x]
      ensures |Spare(hash.table)| == old(|Spare(hash.table)|)
      ensures heap.sqrtu == old(heap.sqrtu) && heap.max == old(heap.max)
      ensures 1 < |heap.infreq| == old(|heap.infreq|) && |heap.infreq[1]| == old(|heap.infreq[1]|)
    {
      hide LowTier, HighTier, Holds, ListsOk, Indexed, Counted, IsPower, Spare, Below, Heaped, Distinct, MovePrev,
           Without, Rename,
           TableWithout, LowWithout, TierWithout;
      WithoutSame(rec.cpos, id);
      MovePrevSame(prev, rec.cpos, id);
      var last := |rec.pair| - 1;
      HashMoved(hash.table, rec.pair, rec.kpos, id, last);
      HighHeapMoved(heap.hi, rec.freq, rec.hpos, heap.sqrtu, out, id);
      LowHeapMoved(heap.infreq, rec.freq, rec.hpos, heap.sqrtu, lo, out, id);
      ListsMoved(next, prev, rec.cpos[id := -1], owner, rank, id);
      ListsFacts(next, prev, rec.cpos[id := -1], owner, rank, id);
      MovePrevFrame(prev, rec.cpos[id := -1], owner, id);
      RemovedIndexed(idx, rec.pair, owner, id);
      RemovedCounted(rec.freq, owner, id, out);
      idx := idx - {rec.pair[id]};
      owner := Rename(owner, last, id);
      CopyLast(id);
    }

    /** Positions without owner: those cut off since the old state carry the null mark, the others are as they were. */
    twostate predicate CutOff()
      reads this
    {
      && |owner| == old(|owner|) == |prev| == old(|prev|) == |next| == old(|next|)
      && forall x :: 0 <= x < |owner| && owner[x] < 0 ==>
           next[x] == (if old(owner[x]) < 0 then old(next[x]) else -1)
           && prev[x] == if old(owner[x]) < 0 then old(prev[x]) else NULL_FREQ
    }

    /** Deletes record `id`, which is off the heap and has at most one occurrence left. */
    method RemoveRecord(id: int, ghost out: set<int>, ghost lo: int)
      requires Linked(out, lo) && Counted(rec.freq, owner, out) && 0 <= id < |rec.pair| && id in out
      requires |rec.pair| - 1 in out ==> |rec.pair| - 1 == id
      requires forall p :: 0 <= p < |owner| && owner[p] == id ==> p == rec.cpos[id]
      modifies rec, hash, heap, this`prev, this`owner, this`idx
      ensures Linked(out - {id}, lo) && Counted(rec.freq, owner, out - {id})
      ensures var last := old(|rec.pair|) - 1;
              && rec.pair == Without(old(rec.pair), id) && |old(rec.freq)| == last + 1
              && rec.freq == Without(old(rec.freq), id)
      ensures idx == old(idx) - {old(rec.pair)[id]}
      ensures CutOff() && id < |old(rec.cpos)|
      ensures forall x :: 0 <= x < |owner| ==> (owner[x] < 0 <==> old(owner[x]) < 0 || x == old(rec.cpos)[id])
      ensures |Spare(hash.table)| == old(|Spare(hash.table)|)
      ensures heap.sqrtu == old(heap.sqrtu) && heap.max == old(heap.max)
      ensures 1 < |heap.infreq| == old(|heap.infreq|) && |heap.infreq[1]| == old(|heap.infreq[1]|)
    {
      hide LowTier, HighTier, Holds, ListsOk, Indexed, Counted, IsPower, Spare, Below, Heaped, Distinct;
      ghost var cpos0, owner0 := rec.cpos, owner;
      Forget(id, out, lo);
      MoveLast(id, out, lo);
      RemovalFrame(owner0, cpos0, id);
    }

    /** Positions without owner are as they were. */
    twostate predicate Untouched()
      reads this
    {
      && |owner| == old(|owner|) == |prev| == old(|prev|) == |next| == old(|next|)
      && forall x :: 0 <= x < |owner| && owner[x] < 0 && old(owner[x]) < 0 ==>
           next[x] == old(next[x]) && prev[x] == old(prev[x])
    }

    /** Puts position `p` in front of the list of record `id`, whose frequency counts it already; `first` says that
        the list is new. */
    method PushFront(p: int, id: int, first: bool, ghost cur: int)
      requires Linked({cur}, 0) && id != cur && -1 <= cur < |rec.pair| && 0 <= p < |owner| && owner[p] < 0
      requires 0 <= id < |rec.pair| == |rec.freq| == |rec.cpos|
      requires Counted(rec.freq[id := rec.freq[id] - 1], owner, {cur}) && (first <==> rec.cpos[id] == -1)
      modifies this, rec`cpos
      ensures Valid(cur) && owner == old(owner)[p := id]
      ensures rec.pair[id] in old(idx) && idx == old(idx)[rec.pair[id] := old(idx)[rec.pair[id]] + {p}]
      ensures Untouched()
    {
      hide LowTier, HighTier, Holds, ListsOk, Indexed, Counted, IsPower, Spare, Below, Heaped, Distinct;
      ListHead(next, prev, rec.cpos, owner, rank, id);
      ghost var r := if first then 0 else rank[rec.cpos[id]] + 1;
      ListsPushed(next, prev, rec.cpos, owner, rank, id, p, r);
      HeldDistinct(hash.table, rec.pair, rec.kpos);
      PushIndexed(idx, rec.pair, owner, id, p);
      IndexedAt(idx, rec.pair, owner, id);
      PushCounted(rec.freq, owner, {cur}, id, p);
      if first {
        next := next[p := -1];
      } else {
        next := next[p := rec.cpos[id]];
        prev := prev[rec.cpos[id] := p];
      }
      prev := prev[p := -id - 1];
      rec.cpos := rec.cpos[id := p];
      idx := idx[rec.pair[id] := idx[rec.pair[id]] + {p}];
      owner, rank := owner[p := id], rank[p := r];
    }

    /** Takes position `p` off the list of its record, whose frequency no longer counts it. */
    method Unlink(p: int, id: int, ghost cur: int)
      requires Linked({cur}, 0) && 0 <= p < |owner| && owner[p] == id && -1 <= cur < |rec.pair|
      requires 0 <= id < |rec.pair| == |rec.freq|
      requires Counted(if id == cur then rec.freq else rec.freq[id := rec.freq[id] + 1], owner, {cur})
      modifies this, rec`cpos
      ensures Valid(cur) && owner == old(owner)[p := -1]
      ensures rec.pair[id] in old(idx) && idx == old(idx)[rec.pair[id] := old(idx)[rec.pair[id]] - {p}]
      ensures Untouched()
    {
      hide LowTier, HighTier, Holds, ListsOk, Indexed, Counted, IsPower, Spare, Below, Heaped, Distinct;
      ListSizes(next, prev, rec.cpos, owner, rank);
      ListsUnlinked(next, prev, rec.cpos, owner, rank, p);
      HeldDistinct(hash.table, rec.pair, rec.kpos);
      UnlinkIndexed(idx, rec.pair, owner, p);
      IndexedAt(idx, rec.pair, owner, id);
      UnlinkCounted(rec.freq, owner, {cur}, p);
      var before, after := prev[p], next[p];
      if before < 0 {
        rec.cpos := rec.cpos[id := after];
      } else {
        next := next[before := after];
      }
      if after != -1 {
        prev := prev[after := before];
      }
      idx := idx[rec.pair[id] := idx[rec.pair[id]] - {p}];
      owner := owner[p := -1];
    }

    /** While nothing was deleted, every search ends. */
    lemma SearchEnds(cur: int)
      requires Valid(cur) && Unmarked(hash.table)
      ensures Spare(hash.table) != {} && 2 * |Spare(hash.table)| >= |hash.table|
      ensures |Spare(hash.table)| >= |idx.Keys|
    {
      hide Holds, Spare, Unmarked, ListsOk, Counted, LowTier, HighTier, Heaped, Occ;
      hash.HalfSpare(Below(|rec.pair|));
      ElementsCard(rec.pair, idx.Keys);
    }

    /**
     A new occurrence of `pr` at position `p`: the search, then either a new record or one more occurrence of
     the old one, and `p` in front of its list.  `ok` is false when the search never ends.
     */
    method Add(p: int, pr: Pair, ghost cur: int) returns (ok: bool)
      requires Valid(cur) && 0 <= p < |owner| && owner[p] < 0
      requires cur != -1 ==> pr != rec.pair[cur]
      requires |Owned(owner)| < heap.sqrtu * heap.sqrtu && |Owned(owner)| + 1 < MAX_INT
      modifies this, rec, hash, heap
      ensures ok <==> old(Spare(hash.table) != {}) || pr in old(idx)
      ensures ok ==> Valid(cur) && idx == PairSets.Inserted(old(idx), pr, p)
      ensures ok ==> Untouched() && forall x :: 0 <= x < |owner| ==> (owner[x] >= 0 <==> old(owner[x]) >= 0 || x == p)
      ensures ok ==> |Spare(hash.table)| >= old(|Spare(hash.table)|) - 1
      ensures ok && old(Unmarked(hash.table)) ==> Unmarked(hash.table)
      ensures if ok then |hash.table| >= old(|hash.table|) else hash.table == old(hash.table)
      ensures ok ==> heap.sqrtu == old(heap.sqrtu) && heap.max == old(heap.max)
      ensures ok ==> |rec.pair| >= old(|rec.pair|)
      ensures ok ==> forall i :: 0 <= i < old(|rec.pair|) ==> rec.pair[i] == old(rec.pair)[i]
    {
      hide LowTier, HighTier, Holds, ListsOk, Indexed, Counted, IsPower, Spare, Unmarked, Below, Heaped, Distinct,
           Owned;
      var n := |rec.pair|;
      SearchFacts(idx, rec.pair, owner, pr);
      HeldSizes(hash.table, rec.pair, rec.kpos, Below(n));
      ListSizes(next, prev, rec.cpos, owner, rank);
      TierSizes(heap.hi, rec.freq, rec.hpos, Heaped(n, {cur}), heap.sqrtu, -1, -1);
      var r := hash.Search(pr, Below(n));
      if r == None {
        return false;
      }
      ok := true;
      var id := r.value;
      ghost var freq0 := rec.freq;
      if id == -1 {
        HeapedOccurAll(heap.infreq, rec.freq, rec.hpos, heap.sqrtu, owner, {cur});
        RecordsBound(rec.freq, owner, cur);
        AppendCounted(rec.freq, owner, {cur});
        id := InsertRecord(pr, cur);
        assert rec.freq[id := rec.freq[id] - 1] == freq0 + [0];
        PushFront(p, id, true, cur);
      } else {
        HeapedIn(n, {cur}, id);
        HeapedOccurs(heap.infreq, rec.freq, rec.hpos, heap.sqrtu, owner, {cur}, id);
        ListHead(next, prev, rec.cpos, owner, rank, id);
        HighRoom(rec.freq, owner, {cur}, heap.sqrtu);
        heap.IncFreq(id, Heaped(n, {cur}));
        assert rec.freq[id := rec.freq[id] - 1] == freq0;
        PushFront(p, id, false, cur);
      }
    }

    /**
     The occurrence of `pr` at position `q` disappears: the record loses one occurrence, and with its last one
     it is deleted.  The record `oid` of the current round is out of the heap, so its frequency stays.
     */
    method Drop(q: int, pr: Pair, oid: int) returns (ok: bool)
      requires Valid(oid) && oid != -1 && 0 <= q < |owner|
      requires if pr in idx then q in idx[pr] else owner[q] < 0
      requires pr in idx && pr != rec.pair[oid] && |idx[pr]| == 1 ==> oid != |rec.pair| - 1
      modifies this, rec, hash, heap
      ensures ok <==> old(Spare(hash.table) != {}) || pr in old(idx)
      ensures ok ==> Valid(oid) && rec.pair[oid] == old(rec.pair)[oid]
      ensures ok ==> idx == Removed(old(idx), pr, q, old(rec.pair)[oid])
      ensures ok ==> Untouched() && forall x :: 0 <= x < |owner| ==> (owner[x] >= 0 <==> old(owner[x]) >= 0 && x != q)
      ensures if ok then |Spare(hash.table)| == old(|Spare(hash.table)|) else hash.table == old(hash.table)
      ensures ok ==> heap.sqrtu == old(heap.sqrtu) && heap.max == old(heap.max) && |rec.pair| <= old(|rec.pair|)
    {
      hide LowTier, HighTier, Holds, ListsOk, Indexed, Counted, IsPower, Spare, Below, Heaped, Distinct;
      var n := |rec.pair|;
      SearchFacts(idx, rec.pair, owner, pr);
      ListSizes(next, prev, rec.cpos, owner, rank);
      var r := hash.Search(pr, Below(n));
      if r == None {
        return false;
      }
      ok := true;
      var id := r.value;
      if id != -1 {
        HeapedIn(n, {oid}, id);
        IndexedAt(idx, rec.pair, owner, id);
        assert owner[q] == id;
        if id != oid {
          DropOther(q, id, oid);
        } else {
          Unlink(q, id, oid);
        }
      }
    }

    /** Takes the first position off the list of the record `oid` of the current round. */
    method PopFirst(oid: int) returns (p: int)
      requires Valid(oid) && 0 <= oid < |rec.pair| == |rec.cpos| && rec.cpos[oid] != -1
      modifies this, rec`cpos
      ensures Valid(oid) && rec.pair[oid] in old(idx) && p in old(idx)[rec.pair[oid]]
      ensures idx == Removed(old(idx), rec.pair[oid], p, rec.pair[oid])
      ensures 0 <= p < |owner| == |next| == |prev| && owner == old(owner)[p := -1] && Untouched()
    {
      hide LowTier, HighTier, Holds, ListsOk, Indexed, Counted, IsPower, Spare, Below, Heaped, Distinct;
      HeadOf(oid, oid);
      ListSizes(next, prev, rec.cpos, owner, rank);
      p := rec.cpos[oid];
      Unlink(p, oid, oid);
    }

    /** Drops an occurrence of a record other than the current one. */
    method DropOther(q: int, id: int, oid: int)
      requires Valid(oid) && oid != -1 && 0 <= q < |owner| && owner[q] == id && 0 <= id < |rec.pair| && id != oid
      requires |Occ(owner, id)| == 1 ==> oid != |rec.pair| - 1
      modifies this, rec, hash, heap
      ensures Valid(oid) && rec.pair[oid] == old(rec.pair)[oid] && old(rec.pair)[id] in old(idx)
      ensures idx == if |old(idx)[old(rec.pair)[id]]| == 1 then old(idx) - {old(rec.pair)[id]}
                     else old(idx)[old(rec.pair)[id] := old(idx)[old(rec.pair)[id]] - {q}]
      ensures Untouched() && forall x :: 0 <= x < |owner| ==> (owner[x] >= 0 <==> old(owner[x]) >= 0 && x != q)
      ensures |Spare(hash.table)| == old(|Spare(hash.table)|)
      ensures heap.sqrtu == old(heap.sqrtu) && heap.max == old(heap.max) && |rec.pair| <= old(|rec.pair|)
    {
      hide LowTier, HighTier, Holds, ListsOk, Indexed, Counted, IsPower, Spare, Below, Heaped, Distinct;
      var n := |rec.pair|;
      HeapedIn(n, {oid}, id);
      IndexedAt(idx, rec.pair, owner, id);
      HeapedOccurs(heap.infreq, rec.freq, rec.hpos, heap.sqrtu, owner, {oid}, id);
      DecCounted(rec.freq, owner, {oid}, id);
      PrevMark(next, prev, rec.cpos, owner, rank, q);
      ghost var freq0 := rec.freq;
      if freq0[id] == 1 {
        SingleOcc(next, prev, rec.cpos, owner, rank, id, q);
      }
      var gone := heap.DecFreq(id, Heaped(n, {oid}));
      if gone {
        RemoveRecord(id, {oid} + {id}, 0);
        assert {oid} + {id} - {id} == {oid};
      }
      if prev[q] != NULL_FREQ {
        assert rec.freq[id := rec.freq[id] + 1] == freq0;
        Unlink(q, id, oid);
      }
    }

    /** Takes a record of maximum frequency off the heap, or reports -1 when there is no record at all. */
    method ExtractMax() returns (oid: int)
      requires Valid(-1)
      requires heap.max < heap.sqrtu ==> forall pr :: pr in idx ==> |idx[pr]| <= heap.max
      modifies heap
      ensures oid == -1 <==> idx == map[]
      ensures Valid(oid) && heap.sqrtu == old(heap.sqrtu)
      ensures oid != -1 ==> rec.pair[oid] in idx && forall pr :: pr in idx ==> |idx[pr]| <= |idx[rec.pair[oid]]|
      ensures oid != -1 && heap.max < heap.sqrtu ==> heap.max == |idx[rec.pair[oid]]|
    {
      hide LowTier, HighTier, Holds, ListsOk, Indexed, Counted, IsPower, Spare, Below, Heaped, Distinct;
      var n := |rec.pair|;
      HeapedAll(n);
      HeapView(idx, rec.pair, rec.freq, owner, {-1});
      oid := heap.ExtractMax(Below(n));
      HeapedIn(n, {-1}, oid);
      ExtractCounted(rec.freq, owner, oid);
      if oid == -1 {
        BelowEmpty(n);
      } else {
        HeapedOff(n, oid);
      }
    }

    /** Deletes every record with a single occurrence. */
    method PurgeHeap()
      requires Valid(-1)
      modifies this, rec, hash, heap
      ensures Valid(-1) && heap.sqrtu == old(heap.sqrtu) && heap.max == old(heap.max)
      ensures idx == map pr | pr in old(idx) && |old(idx)[pr]| >= 2 :: old(idx)[pr]
      ensures CutOff()
      ensures |Spare(hash.table)| == old(|Spare(hash.table)|)
      ensures forall x :: 0 <= x < |owner| && owner[x] >= 0 ==> old(owner[x]) >= 0
    {
      hide LowTier, HighTier, Holds, ListsOk, Indexed, Counted, IsPower, Spare, Below, Heaped, Distinct;
      var i := 0;
      LowSizes(heap.infreq, rec.freq, rec.hpos, Heaped(|rec.pair|, {-1}), heap.sqrtu, 0);
      TierSizes(heap.hi, rec.freq, rec.hpos, Heaped(|rec.pair|, {-1}), heap.sqrtu, -1, -1);
      ListSizes(next, prev, rec.cpos, owner, rank);
      while i < |heap.infreq[1]|
        invariant 2 <= |heap.infreq| && 0 <= i <= |heap.infreq[1]|
        invariant Linked({-1}, i) && Counted(rec.freq, owner, {-1})
        invariant heap.sqrtu == old(heap.sqrtu) && heap.max == old(heap.max)
        invariant forall pr :: pr in idx ==> pr in old(idx) && idx[pr] == old(idx)[pr]
        invariant forall pr :: pr in old(idx) && pr !in idx ==> |old(idx)[pr]| == 1
        invariant CutOff()
        invariant |Spare(hash.table)| == old(|Spare(hash.table)|)
        invariant forall x :: 0 <= x < |owner| && owner[x] >= 0 ==> old(owner[x]) >= 0
      {
        PurgeOne(i);
        i := i + 1;
      }
      HeapedAll(|rec.pair|);
      heap.ClearOnes(Below(|rec.pair|));
      HeapView(idx, rec.pair, rec.freq, owner, {-1});
    }

    /** Deletes the record at entry `i` of the array of frequency 1. */
    method PurgeOne(i: int)
      requires Linked({-1}, i) && Counted(rec.freq, owner, {-1}) && 2 <= |heap.infreq| && 0 <= i < |heap.infreq[1]|
      modifies this, rec, hash, heap
      ensures Linked({-1}, i + 1) && Counted(rec.freq, owner, {-1})
      ensures 2 <= |heap.infreq| == old(|heap.infreq|) && |heap.infreq[1]| == old(|heap.infreq[1]|)
      ensures heap.sqrtu == old(heap.sqrtu) && heap.max == old(heap.max)
      ensures exists pr :: pr in old(idx) && |old(idx)[pr]| == 1 && idx == old(idx) - {pr}
      ensures CutOff()
      ensures |Spare(hash.table)| == old(|Spare(hash.table)|)
      ensures forall x :: 0 <= x < |owner| && owner[x] >= 0 ==> old(owner[x]) >= 0
    {
      hide LowTier, HighTier, Holds, ListsOk, Indexed, Counted, IsPower, Spare, Below, Heaped, Distinct;
      var n := |rec.pair|;
      HeapedAll(n);
      LowSizes(heap.infreq, rec.freq, rec.hpos, Heaped(n, {-1}), heap.sqrtu, i);
      LowPurged(heap.infreq, rec.freq, rec.hpos, Heaped(n, {-1}), heap.sqrtu, i);
      var id := heap.infreq[1][i];
      HeapedIn(n, {-1}, id);
      HeapView(idx, rec.pair, rec.freq, owner, {-1});
      HighShrink(heap.hi, rec.freq, rec.hpos, Heaped(n, {-1}), heap.sqrtu, id);
      IndexedAt(idx, rec.pair, owner, id);
      OnlyOcc(next, prev, rec.cpos, owner, rank, id);
      MoreOut(rec.freq, owner, {-1}, id);
      RemoveRecord(id, {-1} + {id}, i + 1);
      assert {-1} + {id} - {id} == {-1};
    }

    /** The writes of a move of list cell `i` to `j`. */
    method MoveCell(i: int, j: int)
      requires 0 <= j <= i < |next| == |prev| && -1 <= next[i] < |next| && prev[i] < |next| && prev[i] != j
      requires prev[i] < 0 && prev[i] != NULL_FREQ ==> 0 <= -prev[i] - 1 < |rec.cpos|
      modifies this`next, this`prev, rec`cpos
      ensures old(0 <= j <= i < |next| == |prev| && -1 <= next[i] < |next| && prev[i] < |next|)
      ensures next == RelocateNext(old(next), old(prev), i, j) && prev == RelocatePrev(old(next), old(prev), i, j)
      ensures rec.cpos == if old(prev)[i] < 0 && old(prev)[i] != NULL_FREQ then old(rec.cpos)[-old(prev)[i] - 1 := j]
              else old(rec.cpos)
    {
      next, prev := next[j := next[i]], prev[j := prev[i]];
      if prev[j] < 0 {
        if prev[j] != NULL_FREQ {
          rec.cpos := rec.cpos[-prev[j] - 1 := j];
        }
      } else {
        next := next[prev[j] := j];
      }
      if next[j] != -1 {
        prev := prev[next[j] := j];
      }
    }

    /** Moves the list cell of position `i` down to position `j`, with all pointers to it. */
    method Relocate(i: int, j: int)
      requires Valid(-1) && 0 <= j <= i < |owner| && (j != i ==> owner[j] < 0)
      requires |prev| == |next| == |owner| && (owner[i] < 0 ==> prev[i] == NULL_FREQ && next[i] == -1)
      modifies this, rec`cpos
      ensures Valid(-1) && idx == ShiftAll(old(idx), i, j)
      ensures |owner| == old(|owner|) == |prev| == |next|
      ensures i == j ==> owner == old(owner)
      ensures i != j ==> owner == old(owner)[j := old(owner)[i]][i := -1] || (old(owner)[i] < 0 && owner == old(owner))
      ensures forall x :: 0 <= x < |owner| && owner[x] < 0 && (x != i || i == j) ==>
                next[x] == old(next)[if x == j then i else x] && prev[x] == old(prev)[if x == j then i else x]
    {
      hide LowTier, HighTier, Holds, ListsOk, Indexed, Counted, IsPower, Spare, Below, Heaped, Distinct;
      ListSizes(next, prev, rec.cpos, owner, rank);
      CellBounds(next, prev, rec.cpos, owner, rank, i, j);
      if owner[i] < 0 {
        UnownedIndex(idx, rec.pair, owner, i, j);
        ListsLoosened(next, prev, rec.cpos, owner, rank, j, -1, NULL_FREQ);
      } else if i == j {
        UnownedIndex(idx, rec.pair, owner, i, j);
        SelfMove(next, prev, rec.cpos, owner, rank, i);
      } else {
        ListsRelocated(next, prev, rec.cpos, owner, rank, i, j);
        RelocatedIndex(idx, rec.pair, rec.freq, owner, i, j);
        rank := rank[j := rank[i]];
        owner := owner[j := owner[i]][i := -1];
      }
      idx := ShiftAll(idx, i, j);
      MoveCell(i, j);
    }

    /** The list cells beyond position `n`, none of them on a list, are given up. */
    method Truncate(n: int)
      requires Valid(-1) && 0 <= n <= |owner| && forall p :: n <= p < |owner| ==> owner[p] < 0
      modifies this
      ensures Valid(-1) && idx == old(idx)
      ensures |next| == |prev| == |owner| == n <= |old(owner)| == |old(next)| == |old(prev)|
      ensures owner == old(owner)[..n] && next == old(next)[..n] && prev == old(prev)[..n]
    {
      hide LowTier, HighTier, Holds, ListsOk, Indexed, Counted, IsPower, Spare, Below, Heaped, Distinct;
      ListsTruncated(next, prev, rec.cpos, owner, rank, n);
      TruncatedIndex(idx, rec.pair, rec.freq, owner, n);
      next, prev := next[..n], prev[..n];
      owner, rank := owner[..n], rank[..n];
    }

    /** Deletes the record of the finished round, which has no occurrence left. */
    method EndRound(oid: int)
      requires Valid(oid) && oid != -1 && rec.pair[oid] in idx && idx[rec.pair[oid]] == {}
      modifies this, rec, hash, heap
      ensures Valid(-1) && idx == old(idx) - {old(rec.pair)[oid]}
      ensures Untouched() && forall x :: 0 <= x < |owner| ==> (owner[x] < 0 <==> old(owner[x]) < 0)
      ensures |Spare(hash.table)| == old(|Spare(hash.table)|)
      ensures heap.sqrtu == old(heap.sqrtu) && heap.max == old(heap.max)
    {
      hide LowTier, HighTier, Holds, ListsOk, Indexed, Counted, IsPower, Spare, Below, Heaped, Distinct;
      IndexedAt(idx, rec.pair, owner, oid);
      ListHead(next, prev, rec.cpos, owner, rank, oid);
      assert forall p :: 0 <= p < |owner| && owner[p] == oid ==> p in Occ(owner, oid);
      RemoveRecord(oid, {oid}, 0);
      assert {oid} - {oid} == {};
      HeapedAll(|rec.pair|);
      MoreOut(rec.freq, owner, {}, -1);
      assert {} + {-1} == {-1};
    }

    // ---------- what a valid index promises ----------

    lemma Sizes(cur: int)
      requires Valid(cur)
      ensures |owner| == |next| == |prev| && -1 <= cur < |rec.pair| == |rec.cpos| == |idx.Keys|
      ensures cur != -1 ==> rec.pair[cur] in idx
      ensures heap.sqrtu >= 2
    {
      hide LowTier, HighTier, Holds, ListsOk, Indexed, Counted, IsPower, Spare, Below, Heaped, Distinct;
      ListSizes(next, prev, rec.cpos, owner, rank);
      HeldDistinct(hash.table, rec.pair, rec.kpos);
      KeysCard(idx, rec.pair, owner);
      TierSizes(heap.hi, rec.freq, rec.hpos, Heaped(|rec.pair|, {cur}), heap.sqrtu, -1, -1);
      if cur != -1 {
        IndexedAt(idx, rec.pair, owner, cur);
      }
    }

    /** An owned position is recorded under some pair. */
    lemma OwnerOf(cur: int, p: int) returns (pr: Pair)
      requires Valid(cur) && 0 <= p < |owner| && owner[p] >= 0
      ensures pr in idx && p in idx[pr] && In(idx, pr, p)
    {
      hide LowTier, HighTier, Holds, ListsOk, Indexed, Counted, IsPower, Spare, Below, Heaped, Distinct;
      ListSizes(next, prev, rec.cpos, owner, rank);
      OwnerIndexed(idx, rec.pair, owner, p);
      pr := rec.pair[owner[p]];
    }

    /** A recorded position is owned, by the record of its pair. */
    lemma Owns(cur: int, pr: Pair, p: int)
      requires Valid(cur) && pr in idx && p in idx[pr]
      ensures 0 <= p < |owner| && 0 <= owner[p] < |rec.pair| && rec.pair[owner[p]] == pr
    {
      hide LowTier, HighTier, Holds, ListsOk, Counted, IsPower, Spare, Below, Heaped, Distinct;
      IndexedOwner(idx, rec.pair, owner, pr, p);
    }

    /** The list of a record starts with an occurrence of its pair, if there is one. */
    lemma HeadOf(cur: int, id: int)
      requires Valid(cur) && 0 <= id < |rec.pair|
      ensures |rec.cpos| == |rec.pair| && rec.pair[id] in idx
      ensures rec.cpos[id] == -1 <==> idx[rec.pair[id]] == {}
      ensures rec.cpos[id] != -1 ==>
                rec.cpos[id] in idx[rec.pair[id]] && 0 <= rec.cpos[id] < |owner| && owner[rec.cpos[id]] == id
    {
      hide LowTier, HighTier, Holds, ListsOk, Indexed, Counted, IsPower, Spare, Below, Heaped, Distinct;
      ListHead(next, prev, rec.cpos, owner, rank, id);
      IndexedAt(idx, rec.pair, owner, id);
    }

    /** A position recorded nowhere has no owner. */
    lemma NotOwned(cur: int, p: int)
      requires Valid(cur) && 0 <= p < |owner| && forall pr :: !In(idx, pr, p)
      ensures owner[p] < 0
    {
      hide Valid;
      if owner[p] >= 0 {
        var pr := OwnerOf(cur, p);
      }
    }
  }
}
