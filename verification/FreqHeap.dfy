/**
 The two-tier frequency heap of pair records.

 Records of frequency below `sqrtu` sit in the array `infreq[f]` of their frequency, at index `hpos`.
 The others occupy a cell each of a fixed pool; cells of one frequency form a doubly linked list whose
 head is the `elems` field of a frequency node, and the nodes, drawn from a second fixed pool, form a
 list sorted by frequency from `smallest` to `largest`.  Unused cells and nodes are chained through
 their `next` and `larger` fields.
 */
module FrequencyHeap {
  import opened RecordTable
  import opened Chains
  import opened Cards

  // ---------- low tier ----------

  /** Every record of `dom` below `sqrtu` is at its place in `infreq`, and nothing else is there.
      Entries of `infreq[1]` before `lo` are leftovers of a purge in progress. */
  ghost predicate LowTier(infreq: seq<seq<int>>, freq: seq<int>, hpos: seq<int>, dom: set<int>, sqrtu: int, lo: int) {
    && |infreq| == sqrtu && |freq| == |hpos|
    && (forall id :: id in dom ==> 0 <= id < |freq| && freq[id] >= 1)
    && (forall id :: id in dom && freq[id] < sqrtu ==>
          && 0 <= hpos[id] < |infreq[freq[id]]| && infreq[freq[id]][hpos[id]] == id
          && (freq[id] == 1 ==> lo <= hpos[id]))
    && (forall f, k {:trigger infreq[f][k]} :: 1 <= f < sqrtu && 0 <= k < |infreq[f]| && (f == 1 ==> lo <= k) ==>
          infreq[f][k] in dom && freq[infreq[f][k]] == f && hpos[infreq[f][k]] == k)
  }

  /** `infreq[f]` once the entry at `k` has been overwritten by the last one and the last one dropped. */
  function Pulled(a: seq<int>, k: int): (r: seq<int>)
    requires 0 <= k < |a|
  {
    a[k := a[|a| - 1]][..|a| - 1]
  }

  lemma LowRemoved(infreq: seq<seq<int>>, freq: seq<int>, hpos: seq<int>, dom: set<int>, sqrtu: int, id: int)
    requires LowTier(infreq, freq, hpos, dom, sqrtu, 0) && id in dom && freq[id] < sqrtu
    ensures var a := infreq[freq[id]];
            0 <= a[|a| - 1] < |hpos| &&
            LowTier(infreq[freq[id] := Pulled(a, hpos[id])], freq, hpos[a[|a| - 1] := hpos[id]], dom - {id}, sqrtu, 0)
  {
    var f, a := freq[id], infreq[freq[id]];
    var last := a[|a| - 1];
    assert infreq[f][|a| - 1] == last;
    var infreq', hpos' := infreq[f := Pulled(a, hpos[id])], hpos[last := hpos[id]];
    forall g, k | 1 <= g < sqrtu && 0 <= k < |infreq'[g]|
      ensures infreq'[g][k] in dom - {id} && freq[infreq'[g][k]] == g && hpos'[infreq'[g][k]] == k
    {
      assert (g == f && k == hpos[id]) || infreq'[g][k] == infreq[g][k];
    }
  }

  lemma LowAdded(infreq: seq<seq<int>>, freq: seq<int>, hpos: seq<int>, dom: set<int>, sqrtu: int, id: int)
    requires LowTier(infreq, freq, hpos, dom, sqrtu, 0)
    requires 0 <= id < |freq| && id !in dom && 1 <= freq[id] < sqrtu
    ensures LowTier(infreq[freq[id] := infreq[freq[id]] + [id]], freq, hpos[id := |infreq[freq[id]]|], dom + {id},
                    sqrtu, 0)
  {
    var f := freq[id];
    var infreq', hpos' := infreq[f := infreq[f] + [id]], hpos[id := |infreq[f]|];
    forall g, k | 1 <= g < sqrtu && 0 <= k < |infreq'[g]|
      ensures infreq'[g][k] in dom + {id} && freq[infreq'[g][k]] == g && hpos'[infreq'[g][k]] == k
    {
      assert (g == f && k == |infreq[f]|) || infreq'[g][k] == infreq[g][k];
    }
  }

  // ---------- free lists ----------

  /** The chain through `link` from `top` is `stack`, read from its end. */
  ghost predicate FreeStack(link: seq<int>, top: int, stack: seq<int>) {
    && top == (if stack == [] then -1 else stack[|stack| - 1])
    && (forall i :: 0 <= i < |stack| ==> 0 <= stack[i] < |link|)
    && (forall i {:trigger link[stack[i]]} :: 0 <= i < |stack| ==>
         link[stack[i]] == if i == 0 then -1 else stack[i - 1])
    && (forall i, j :: 0 <= i < j < |stack| ==> stack[i] != stack[j])
  }

  lemma StackPopped(link: seq<int>, top: int, stack: seq<int>)
    requires FreeStack(link, top, stack) && stack != []
    ensures 0 <= top < |link| && top in stack && top !in stack[..|stack| - 1]
    ensures forall x :: x in stack[..|stack| - 1] <==> x in stack && x != top
    ensures FreeStack(link, link[top], stack[..|stack| - 1])
  {
    LastElement(stack);
    var rest := stack[..|stack| - 1];
    assert link[stack[|stack| - 1]] == if rest == [] then -1 else rest[|rest| - 1];
    forall i | 0 <= i < |rest| ensures link[rest[i]] == if i == 0 then -1 else rest[i - 1] {
      assert link[stack[i]] == if i == 0 then -1 else stack[i - 1];
    }
  }

  lemma LastElement(stack: seq<int>)
    requires stack != [] && forall i, j :: 0 <= i < j < |stack| ==> stack[i] != stack[j]
    ensures var k := |stack| - 1; forall x :: x in stack[..k] <==> x in stack && x != stack[k]
  {
    var k := |stack| - 1;
    assert stack == stack[..k] + [stack[k]];
  }

  lemma StackPushed(link: seq<int>, top: int, stack: seq<int>, x: int)
    requires FreeStack(link, top, stack) && 0 <= x < |link| && x !in stack
    ensures FreeStack(link[x := top], x, stack + [x])
  {
  }

  lemma StackFrame(link: seq<int>, link': seq<int>, top: int, stack: seq<int>)
    requires FreeStack(link, top, stack) && |link'| == |link|
    requires forall x :: x in stack ==> link'[x] == link[x]
    ensures FreeStack(link', top, stack)
  {
    forall i | 0 <= i < |stack| ensures link'[stack[i]] == link[stack[i]] {
      assert stack[i] in stack;
    }
  }

  // ---------- high tier ----------

  ghost predicate Marks(prev: seq<int>, owner: seq<int>) {
    |prev| == |owner| && forall p :: 0 <= p < |owner| && owner[p] >= 0 ==> prev[p] >= -1
  }

  /** `smallest` is the tail of the node list. */
  ghost predicate Bottom(next: seq<int>, owner: seq<int>, tail: int) {
    && |next| == |owner|
    && (forall f {:trigger next[f]} :: 0 <= f < |owner| && owner[f] >= 0 ==>
          tail != -1 && (next[f] == -1 ==> tail == f))
    && (tail != -1 ==> 0 <= tail < |owner| && owner[tail] >= 0 && next[tail] == -1)
  }

  ghost predicate CellPool(cnext: seq<int>, freef: int, freeCells: seq<int>, home: seq<int>, loose: int) {
    && FreeStack(cnext, freef, freeCells) && |home| == |cnext|
    && (forall x :: 0 <= x < |home| ==> (x in freeCells <==> home[x] < 0 && x != loose))
    && (loose != -1 ==> 0 <= loose < |home| && home[loose] < 0)
  }

  ghost predicate NodePool(flarger: seq<int>, freeff: int, freeNodes: seq<int>, owner: seq<int>) {
    && FreeStack(flarger, freeff, freeNodes) && |owner| == |flarger|
    && (forall f :: 0 <= f < |owner| ==> (f in freeNodes <==> owner[f] < 0))
  }

  /** The ghost list heads are the `elems` fields of the nodes in use. */
  ghost predicate Elems(heads: seq<int>, felems: seq<int>, owner: seq<int>, hollow: int) {
    && |heads| == |felems| == |owner|
    && (forall f :: 0 <= f < |owner| && owner[f] < 0 ==> heads[f] == -1)
    && (forall f :: 0 <= f < |owner| && owner[f] >= 0 && f != hollow ==> heads[f] == felems[f] != -1)
  }

  /** Cells on lists and records of high frequency correspond. */
  ghost predicate Housed(cid: seq<int>, cfnode: seq<int>, home: seq<int>, ffreq: seq<int>, owner: seq<int>,
                         freq: seq<int>, hpos: seq<int>, dom: set<int>, sqrtu: int) {
    && |cid| == |cfnode| == |home| == |ffreq| == |owner| == sqrtu && |freq| == |hpos|
    && (forall x :: 0 <= x < sqrtu && home[x] >= 0 ==>
          && home[x] < sqrtu && owner[home[x]] >= 0 && cfnode[x] == home[x]
          && cid[x] in dom && 0 <= cid[x] < |hpos| && hpos[cid[x]] == x && freq[cid[x]] == ffreq[home[x]])
    && (forall id :: id in dom ==> 0 <= id < |freq|)
    && (forall id :: id in dom && freq[id] >= sqrtu ==>
          0 <= hpos[id] < sqrtu && home[hpos[id]] >= 0 && cid[hpos[id]] == id)
    && (forall f :: 0 <= f < sqrtu && owner[f] >= 0 ==> ffreq[f] >= sqrtu)
  }

  /** The records of `dom` in the high tier. */
  ghost function HighIds(freq: seq<int>, dom: set<int>, sqrtu: int): (s: set<int>) {
    set id | id in dom && 0 <= id < |freq| && freq[id] >= sqrtu
  }

  /** As long as fewer than `sqrtu` records are frequent, a free cell remains. */
  lemma CellLeft(cnext: seq<int>, freef: int, freeCells: seq<int>, cid: seq<int>, cfnode: seq<int>, home: seq<int>,
                 ffreq: seq<int>, owner: seq<int>, freq: seq<int>, hpos: seq<int>, dom: set<int>, sqrtu: int)
    requires CellPool(cnext, freef, freeCells, home, -1)
    requires Housed(cid, cfnode, home, ffreq, owner, freq, hpos, dom, sqrtu)
    requires |HighIds(freq, dom, sqrtu)| < sqrtu
    ensures freeCells != []
  {
    if freeCells == [] {
      var m := map x | x in Below(sqrtu) :: cid[x];
      assert m.Keys == Below(sqrtu);
      InjectionCard(m, HighIds(freq, dom, sqrtu));
    }
  }

  /** With one cell taken off its list and no empty node, a free node remains. */
  lemma NodeLeft(heads: seq<int>, felems: seq<int>, home: seq<int>, flarger: seq<int>, freeff: int,
                 freeNodes: seq<int>, owner: seq<int>, loose: int)
    requires forall f :: 0 <= f < |heads| && heads[f] != -1 ==> 0 <= heads[f] < |home| && home[heads[f]] == f
    requires NodePool(flarger, freeff, freeNodes, owner)
    requires Elems(heads, felems, owner, -1)
    requires |home| == |owner| && 0 <= loose < |home| && home[loose] < 0
    ensures freeNodes != []
  {
    if freeNodes == [] {
      var n := |owner|;
      var cells := Below(n) - {loose};
      forall f | 0 <= f < n ensures heads[f] in cells && home[heads[f]] == f {
        assert f !in freeNodes;
      }
      HeadsInject(heads, home, cells);
    }
  }

  lemma HeadsInject(heads: seq<int>, home: seq<int>, cells: set<int>)
    requires forall f :: 0 <= f < |heads| ==> heads[f] in cells && 0 <= heads[f] < |home| && home[heads[f]] == f
    ensures |heads| <= |cells|
  {
    var m := map f | f in Below(|heads|) :: heads[f];
    assert m.Keys == Below(|heads|);
    InjectionCard(m, cells);
  }

  /** Links of a pool in which every cell is free: each points to the next one, the last to none. */
  function Chain(n: int): (r: seq<int>)
    requires 0 <= n
    ensures |r| == n
  {
    seq(n, i => if i == n - 1 then -1 else i + 1)
  }

  ghost function Countdown(n: int): (r: seq<int>)
    requires 0 <= n
    ensures |r| == n && forall i :: 0 <= i < n ==> r[i] == n - 1 - i
  {
    seq(n, i => n - 1 - i)
  }

  lemma ChainIsStack(n: int)
    requires 1 <= n
    ensures FreeStack(Chain(n), 0, Countdown(n)) && forall x :: 0 <= x < n ==> x in Countdown(n)
  {
    forall x | 0 <= x < n ensures x in Countdown(n) {
      assert Countdown(n)[n - 1 - x] == x;
    }
  }

  /** The high tier: the pool of cells, the pool of frequency nodes, and ghost columns that describe their lists. */
  datatype Tier = Tier(
    cid: seq<int>, cprev: seq<int>, cnext: seq<int>, cfnode: seq<int>, freef: int,
    ffreq: seq<int>, felems: seq<int>, flarger: seq<int>, fsmaller: seq<int>, freeff: int,
    smallest: int, largest: int,
    ghost home: seq<int>,       // node whose list holds the cell
    ghost rank: seq<int>,       // order of the cells within their lists
    ghost heads: seq<int>,      // heads of those lists
    ghost owner: seq<int>,      // 0 for a node in use, -1 for a free one
    ghost freeCells: seq<int>,
    ghost freeNodes: seq<int>)

  ghost predicate Lists(t: Tier) {
    && Threaded(t.cnext, t.cprev, t.heads, t.home, t.rank) && Marks(t.cprev, t.home)
    && Threaded(t.fsmaller, t.flarger, [t.largest], t.owner, t.ffreq) && Marks(t.flarger, t.owner)
    && Bottom(t.fsmaller, t.owner, t.smallest)
  }

  /** The high tier holds the frequent records of `dom`; `loose` is a cell taken off both its list and the
      free list, `hollow` a node whose list may be empty. */
  ghost predicate HighTier(t: Tier, freq: seq<int>, hpos: seq<int>, dom: set<int>, sqrtu: int, loose: int,
                           hollow: int) {
    && 2 <= sqrtu == |t.home| == |t.owner|
    && Lists(t)
    && CellPool(t.cnext, t.freef, t.freeCells, t.home, loose)
    && NodePool(t.flarger, t.freeff, t.freeNodes, t.owner)
    && Elems(t.heads, t.felems, t.owner, hollow)
    && Housed(t.cid, t.cfnode, t.home, t.ffreq, t.owner, freq, hpos, dom, sqrtu)
  }

  lemma TierSizes(t: Tier, freq: seq<int>, hpos: seq<int>, dom: set<int>, sqrtu: int, loose: int, hollow: int)
    requires HighTier(t, freq, hpos, dom, sqrtu, loose, hollow)
    ensures |t.cnext| == |t.cprev| == |t.home| == |t.cid| == |t.cfnode| == |t.rank| == sqrtu
    ensures |t.heads| == |t.felems| == |t.owner| == |t.ffreq| == |t.fsmaller| == |t.flarger| == sqrtu
    ensures |freq| == |hpos| && 2 <= sqrtu
  {
  }

  lemma EmptyTier(t: Tier, freq: seq<int>, hpos: seq<int>, n: int)
    requires 2 <= n == |t.cid| == |t.cprev| == |t.cfnode| == |t.ffreq| == |t.felems| == |t.fsmaller| && |freq| == |hpos|
    requires t.cnext == Chain(n) && t.freef == 0 && t.flarger == Chain(n) && t.freeff == 0
    requires t.smallest == -1 == t.largest && t.freeCells == Countdown(n) == t.freeNodes
    requires t.home == seq(n, _ => -1) && |t.rank| == n && t.heads == seq(n, _ => -1) && t.owner == seq(n, _ => -1)
    ensures HighTier(t, freq, hpos, {}, n, -1, -1)
  {
    ChainIsStack(n);
  }

  // --- taking a cell off its list ---

  ghost function Detached(t: Tier, x: int, f: int): (r: Tier)
    requires 0 <= x < |t.cnext| == |t.cprev| == |t.home| && -1 <= t.cnext[x] < |t.cnext| && t.cprev[x] < |t.cnext|
    requires 0 <= f < |t.heads| == |t.felems|
  {
    t.(cnext := UnlinkNext(t.cnext, t.cprev, x), cprev := UnlinkPrev(t.cnext, t.cprev, x),
       felems := if t.cprev[x] == -1 then t.felems[f := t.cnext[x]] else t.felems,
       heads := UnlinkHead(t.cnext, t.cprev, t.heads, f, x), home := t.home[x := -1])
  }

  lemma CellFacts(t: Tier, freq: seq<int>, hpos: seq<int>, dom: set<int>, sqrtu: int, x: int)
    requires HighTier(t, freq, hpos, dom, sqrtu, -1, -1) && 0 <= x < sqrtu && t.home[x] >= 0
    ensures |t.cnext| == |t.cprev| == |t.home| == |t.cid| == |t.cfnode| == sqrtu
    ensures -1 <= t.cnext[x] < sqrtu && -1 <= t.cprev[x] < sqrtu && t.cprev[x] != x
    ensures 0 <= t.cfnode[x] == t.home[x] < |t.heads| == |t.felems| == |t.owner| == |t.ffreq| == sqrtu
    ensures t.owner[t.cfnode[x]] >= 0 && t.heads[t.cfnode[x]] == t.felems[t.cfnode[x]] != -1
    ensures t.cid[x] in dom && 0 <= t.cid[x] < |hpos| == |freq| && hpos[t.cid[x]] == x
    ensures freq[t.cid[x]] == t.ffreq[t.cfnode[x]] >= sqrtu
    ensures t.cprev[x] >= 0 ==> t.home[t.cprev[x]] >= 0
  {
    hide HeadOk, Ordered;
  }

  lemma DetachLists(t: Tier, freq: seq<int>, hpos: seq<int>, dom: set<int>, sqrtu: int, x: int)
    requires HighTier(t, freq, hpos, dom, sqrtu, -1, -1) && 0 <= x < sqrtu && t.home[x] >= 0
    ensures -1 <= t.cnext[x] < |t.cnext| && t.cprev[x] < |t.cnext| && 0 <= t.cfnode[x] < |t.heads| == |t.felems|
    ensures Lists(Detached(t, x, t.cfnode[x]))
  {
    hide CellPool, NodePool, Elems, Housed, Bottom, Threaded;
    CellFacts(t, freq, hpos, dom, sqrtu, x);
    Unlinked(t.cnext, t.cprev, t.heads, t.home, t.rank, x);
  }

  lemma DetachPool(t: Tier, freq: seq<int>, hpos: seq<int>, dom: set<int>, sqrtu: int, x: int)
    requires HighTier(t, freq, hpos, dom, sqrtu, -1, -1) && 0 <= x < sqrtu && t.home[x] >= 0
    ensures -1 <= t.cnext[x] < |t.cnext| && t.cprev[x] < |t.cnext| && 0 <= t.cfnode[x] < |t.heads| == |t.felems|
    ensures CellPool(Detached(t, x, t.cfnode[x]).cnext, t.freef, t.freeCells, t.home[x := -1], x)
  {
    hide Lists, NodePool, Elems, Housed;
    CellFacts(t, freq, hpos, dom, sqrtu, x);
    StackFrame(t.cnext, Detached(t, x, t.cfnode[x]).cnext, t.freef, t.freeCells);
  }

  lemma DetachHoused(t: Tier, freq: seq<int>, hpos: seq<int>, dom: set<int>, sqrtu: int, x: int)
    requires HighTier(t, freq, hpos, dom, sqrtu, -1, -1) && 0 <= x < sqrtu && t.home[x] >= 0
    ensures |t.cid| == sqrtu
    ensures Housed(t.cid, t.cfnode, t.home[x := -1], t.ffreq, t.owner, freq, hpos, dom - {t.cid[x]}, sqrtu)
  {
    hide Lists, CellPool, NodePool, Elems;
  }

  lemma DetachOk(t: Tier, freq: seq<int>, hpos: seq<int>, dom: set<int>, sqrtu: int, x: int)
    requires HighTier(t, freq, hpos, dom, sqrtu, -1, -1) && 0 <= x < sqrtu && t.home[x] >= 0
    ensures |t.cnext| == |t.cprev| == |t.home| == |t.cid| == |t.cfnode| == sqrtu
    ensures -1 <= t.cnext[x] < sqrtu && -1 <= t.cprev[x] < sqrtu && 0 <= t.cfnode[x] < |t.heads| == |t.felems|
    ensures HighTier(Detached(t, x, t.cfnode[x]), freq, hpos, dom - {t.cid[x]}, sqrtu, x, t.cfnode[x])
  {
    hide Lists, CellPool, NodePool, Housed;
    CellFacts(t, freq, hpos, dom, sqrtu, x);
    DetachLists(t, freq, hpos, dom, sqrtu, x);
    DetachPool(t, freq, hpos, dom, sqrtu, x);
    DetachHoused(t, freq, hpos, dom, sqrtu, x);
  }

  // --- putting a loose cell in front of a node's list ---

  ghost function TopRank(t: Tier, g: int): (r: int)
    requires 0 <= g < |t.heads| && -1 <= t.heads[g] < |t.rank|
  {
    if t.heads[g] == -1 then 0 else t.rank[t.heads[g]] + 1
  }

  ghost function Attached(t: Tier, x: int, g: int): (r: Tier)
    requires 0 <= x < |t.cnext| == |t.cprev| == |t.home| == |t.cfnode| == |t.rank|
    requires 0 <= g < |t.heads| == |t.felems| && -1 <= t.heads[g] < |t.cnext|
  {
    t.(cnext := PushNext(t.cnext, t.heads, g, x), cprev := PushPrev(t.cprev, t.heads, g, x, -1),
       felems := t.felems[g := x], heads := t.heads[g := x], cfnode := t.cfnode[x := g],
       home := t.home[x := g], rank := t.rank[x := TopRank(t, g)])
  }

  lemma LooseFacts(t: Tier, freq: seq<int>, hpos: seq<int>, dom: set<int>, sqrtu: int, loose: int, hollow: int, g: int)
    requires HighTier(t, freq, hpos, dom, sqrtu, loose, hollow)
    requires 0 <= g < sqrtu && t.owner[g] >= 0
    ensures |t.cnext| == |t.cprev| == |t.home| == |t.cid| == |t.cfnode| == |t.rank| == sqrtu
    ensures |t.heads| == |t.felems| == |t.owner| == |t.ffreq| == |t.fsmaller| == |t.flarger| == sqrtu
    ensures loose != -1 ==> 0 <= loose < sqrtu && t.home[loose] < 0 && loose !in t.freeCells
    ensures -1 <= t.heads[g] < sqrtu && (t.heads[g] != -1 ==> t.home[t.heads[g]] == g)
    ensures t.heads[g] == -1 ==> forall x :: 0 <= x < sqrtu ==> t.home[x] != g
    ensures -1 <= t.flarger[g] < sqrtu && -1 <= t.fsmaller[g] < sqrtu
    ensures t.flarger[g] >= 0 ==> t.owner[t.flarger[g]] >= 0 && t.fsmaller[t.flarger[g]] == g && t.flarger[g] != g
    ensures t.fsmaller[g] >= 0 ==> t.owner[t.fsmaller[g]] >= 0 && t.flarger[t.fsmaller[g]] == g && t.fsmaller[g] != g
    ensures t.flarger[g] >= 0 ==> t.ffreq[g] < t.ffreq[t.flarger[g]]
    ensures t.fsmaller[g] >= 0 ==> t.ffreq[t.fsmaller[g]] < t.ffreq[g]
    ensures g != hollow ==> t.heads[g] == t.felems[g] != -1
    ensures t.ffreq[g] >= sqrtu
  {
    hide Ordered;
  }

  lemma AttachLists(t: Tier, freq: seq<int>, hpos: seq<int>, dom: set<int>, sqrtu: int, x: int, hollow: int, g: int)
    requires HighTier(t, freq, hpos, dom, sqrtu, x, hollow) && x != -1
    requires 0 <= g < sqrtu && t.owner[g] >= 0 && |t.rank| == sqrtu && -1 <= t.heads[g] < sqrtu
    ensures |t.cnext| == |t.cprev| == |t.home| == |t.cfnode| == |t.rank| && |t.heads| == |t.felems|
    ensures Lists(Attached(t, x, g))
  {
    hide CellPool, NodePool, Elems, Housed, Bottom, Threaded;
    LooseFacts(t, freq, hpos, dom, sqrtu, x, hollow, g);
    Pushed(t.cnext, t.cprev, t.heads, t.home, t.rank, g, x, -1, TopRank(t, g));
  }

  lemma AttachPool(t: Tier, freq: seq<int>, hpos: seq<int>, dom: set<int>, sqrtu: int, x: int, hollow: int, g: int)
    requires HighTier(t, freq, hpos, dom, sqrtu, x, hollow) && x != -1
    requires 0 <= g < sqrtu && t.owner[g] >= 0
    ensures |t.heads| == sqrtu && |t.cnext| == sqrtu
    ensures CellPool(PushNext(t.cnext, t.heads, g, x), t.freef, t.freeCells, t.home[x := g], -1)
  {
    hide Lists, NodePool, Elems, Housed;
    LooseFacts(t, freq, hpos, dom, sqrtu, x, hollow, g);
    StackFrame(t.cnext, PushNext(t.cnext, t.heads, g, x), t.freef, t.freeCells);
  }

  lemma AttachHoused(t: Tier, freq: seq<int>, hpos: seq<int>, dom: set<int>, sqrtu: int, x: int, hollow: int, g: int,
                     id: int)
    requires HighTier(t, freq, hpos, dom, sqrtu, x, hollow) && x != -1
    requires 0 <= g < sqrtu && t.owner[g] >= 0 && 0 <= id < |hpos| && id !in dom
    requires |t.cid| == |t.ffreq| == sqrtu && 0 <= x < sqrtu && |freq| == |hpos| && |t.cfnode| == sqrtu
    requires t.cid[x] == id && hpos[id] == x && freq[id] == t.ffreq[g]
    ensures Housed(t.cid, t.cfnode[x := g], t.home[x := g], t.ffreq, t.owner, freq, hpos, dom + {id}, sqrtu)
  {
    hide Lists, CellPool, NodePool, Elems;
  }

  lemma AttachOk(t: Tier, freq: seq<int>, hpos: seq<int>, dom: set<int>, sqrtu: int, x: int, hollow: int, g: int,
                 id: int)
    requires HighTier(t, freq, hpos, dom, sqrtu, x, hollow) && x != -1
    requires 0 <= g < sqrtu && t.owner[g] >= 0 && 0 <= id < |hpos| && id !in dom
    requires |t.cid| == |t.ffreq| == sqrtu && 0 <= x < sqrtu && |freq| == |hpos|
    requires t.cid[x] == id && hpos[id] == x && freq[id] == t.ffreq[g]
    ensures |t.cnext| == |t.cprev| == |t.home| == |t.cfnode| == |t.rank| == sqrtu
    ensures |t.heads| == |t.felems| == sqrtu && -1 <= t.heads[g] < sqrtu
    ensures HighTier(Attached(t, x, g), freq, hpos, dom + {id}, sqrtu, -1, if hollow == g then -1 else hollow)
  {
    hide Lists, CellPool, NodePool, Housed;
    LooseFacts(t, freq, hpos, dom, sqrtu, x, hollow, g);
    AttachLists(t, freq, hpos, dom, sqrtu, x, hollow, g);
    AttachPool(t, freq, hpos, dom, sqrtu, x, hollow, g);
    AttachHoused(t, freq, hpos, dom, sqrtu, x, hollow, g, id);
  }

  // --- freeing and allocating cells ---

  lemma FreeOk(t: Tier, freq: seq<int>, hpos: seq<int>, dom: set<int>, sqrtu: int, x: int, hollow: int)
    requires HighTier(t, freq, hpos, dom, sqrtu, x, hollow) && x != -1
    ensures 0 <= x < sqrtu == |t.cnext|
    ensures HighTier(t.(cnext := t.cnext[x := t.freef], freef := x, freeCells := t.freeCells + [x]), freq, hpos, dom,
                     sqrtu, -1, hollow)
  {
    hide NodePool, Elems, Housed, Bottom, Threaded;
    TierSizes(t, freq, hpos, dom, sqrtu, x, hollow);
    StackPushed(t.cnext, t.freef, t.freeCells, x);
    Loosened(t.cnext, t.cprev, t.heads, t.home, t.rank, x, t.freef, t.cprev[x]);
    assert t.cprev[x := t.cprev[x]] == t.cprev;
  }

  lemma AllocOk(t: Tier, freq: seq<int>, hpos: seq<int>, dom: set<int>, sqrtu: int)
    requires HighTier(t, freq, hpos, dom, sqrtu, -1, -1) && |HighIds(freq, dom, sqrtu)| < sqrtu
    ensures t.freeCells != [] && 0 <= t.freef < sqrtu == |t.cnext| == |t.cprev| == |t.cid| && t.home[t.freef] < 0
    ensures HighTier(t.(freef := t.cnext[t.freef], freeCells := t.freeCells[..|t.freeCells| - 1]),
                     freq, hpos, dom, sqrtu, t.freef, -1)
    ensures forall id :: id in dom && freq[id] >= sqrtu ==> 0 <= id < |hpos| && hpos[id] != t.freef
  {
    hide Threaded, Marks, Bottom, NodePool, Elems;
    TierSizes(t, freq, hpos, dom, sqrtu, -1, -1);
    CellLeft(t.cnext, t.freef, t.freeCells, t.cid, t.cfnode, t.home, t.ffreq, t.owner, freq, hpos, dom, sqrtu);
    StackPopped(t.cnext, t.freef, t.freeCells);
  }

  // --- dropping a node whose list is empty ---

  ghost function Dropped(t: Tier, f: int): (r: Tier)
    requires 0 <= f < |t.fsmaller| == |t.flarger| == |t.owner|
    requires -1 <= t.fsmaller[f] < |t.fsmaller| && t.flarger[f] < |t.fsmaller|
  {
    t.(fsmaller := UnlinkNext(t.fsmaller, t.flarger, f), flarger := UnlinkPrev(t.fsmaller, t.flarger, f)[f := t.freeff],
       smallest := if t.fsmaller[f] == -1 then t.flarger[f] else t.smallest,
       largest := if t.flarger[f] == -1 then t.fsmaller[f] else t.largest,
       freeff := f, freeNodes := t.freeNodes + [f], owner := t.owner[f := -1])
  }

  lemma DropLists(t: Tier, freq: seq<int>, hpos: seq<int>, dom: set<int>, sqrtu: int, loose: int, f: int)
    requires HighTier(t, freq, hpos, dom, sqrtu, loose, f) && 0 <= f < sqrtu && t.owner[f] >= 0
    ensures |t.fsmaller| == |t.flarger| == |t.owner| && -1 <= t.fsmaller[f] < |t.fsmaller|
    ensures t.flarger[f] < |t.fsmaller|
    ensures Lists(Dropped(t, f))
  {
    hide CellPool, NodePool, Elems, Housed, NextOk, PrevOk, HeadOk, Ordered;
    LooseFacts(t, freq, hpos, dom, sqrtu, loose, f, f);
    var next', prev', head' := UnlinkNext(t.fsmaller, t.flarger, f), UnlinkPrev(t.fsmaller, t.flarger, f),
        UnlinkHead(t.fsmaller, t.flarger, [t.largest], 0, f);
    assert t.owner[f] == 0;
    Unlinked(t.fsmaller, t.flarger, [t.largest], t.owner, t.ffreq, f);
    Loosened(next', prev', head', t.owner[f := -1], t.ffreq, f, next'[f], t.freeff);
    assert next'[f := next'[f]] == next';
    assert head' == [Dropped(t, f).largest];
    DropBottom(t, freq, hpos, dom, sqrtu, loose, f);
  }

  lemma DropBottom(t: Tier, freq: seq<int>, hpos: seq<int>, dom: set<int>, sqrtu: int, loose: int, f: int)
    requires HighTier(t, freq, hpos, dom, sqrtu, loose, f) && 0 <= f < sqrtu && t.owner[f] >= 0
    ensures |t.fsmaller| == |t.flarger| == |t.owner| && -1 <= t.fsmaller[f] < |t.fsmaller|
    ensures t.flarger[f] < |t.fsmaller|
    ensures Bottom(Dropped(t, f).fsmaller, Dropped(t, f).owner, Dropped(t, f).smallest)
  {
    hide CellPool, NodePool, Elems, Housed, Threaded;
    LooseFacts(t, freq, hpos, dom, sqrtu, loose, f, f);
    if t.fsmaller[f] == -1 && t.flarger[f] == -1 {
      forall g | 0 <= g < sqrtu && t.owner[g] >= 0 ensures g == f {
        OnlyNode(t, f, g);
      }
    }
  }

  lemma OnlyNode(t: Tier, f: int, g: int)
    requires Lists(t) && InList(t.owner, f) && InList(t.owner, g)
    requires |t.flarger| == |t.fsmaller| == |t.owner| && t.flarger[f] == -1 == t.fsmaller[f]
    ensures f == g
  {
    LoneCell(t.fsmaller, t.flarger, [t.largest], t.owner, t.ffreq, f, g);
  }

  lemma DropPool(t: Tier, freq: seq<int>, hpos: seq<int>, dom: set<int>, sqrtu: int, loose: int, f: int)
    requires HighTier(t, freq, hpos, dom, sqrtu, loose, f) && 0 <= f < sqrtu && t.owner[f] >= 0
    ensures |t.fsmaller| == |t.flarger| == |t.owner| && -1 <= t.fsmaller[f] < |t.fsmaller|
    ensures t.flarger[f] < |t.fsmaller|
    ensures NodePool(Dropped(t, f).flarger, f, t.freeNodes + [f], t.owner[f := -1])
  {
    hide Lists, CellPool, Elems, Housed;
    LooseFacts(t, freq, hpos, dom, sqrtu, loose, f, f);
    var mid := UnlinkPrev(t.fsmaller, t.flarger, f);
    StackFrame(t.flarger, mid, t.freeff, t.freeNodes);
    StackPushed(mid, t.freeff, t.freeNodes, f);
  }

  lemma DropOk(t: Tier, freq: seq<int>, hpos: seq<int>, dom: set<int>, sqrtu: int, loose: int, f: int)
    requires HighTier(t, freq, hpos, dom, sqrtu, loose, f) && 0 <= f < sqrtu && t.owner[f] >= 0
    requires |t.heads| == sqrtu && t.heads[f] == -1
    ensures |t.fsmaller| == |t.flarger| == |t.owner| && -1 <= t.fsmaller[f] < |t.fsmaller|
            && -1 <= t.flarger[f] < |t.fsmaller|
    ensures t.flarger[f] >= 0 ==> t.flarger[f] != f
    ensures HighTier(Dropped(t, f), freq, hpos, dom, sqrtu, loose, -1)
  {
    hide Lists, CellPool, NodePool;
    LooseFacts(t, freq, hpos, dom, sqrtu, loose, f, f);
    DropLists(t, freq, hpos, dom, sqrtu, loose, f);
    DropPool(t, freq, hpos, dom, sqrtu, loose, f);
  }

  /** A node whose list turned out not to be empty is an ordinary node. */
  lemma SettledOk(t: Tier, freq: seq<int>, hpos: seq<int>, dom: set<int>, sqrtu: int, loose: int, f: int)
    requires HighTier(t, freq, hpos, dom, sqrtu, loose, f)
    requires 0 <= f < |t.heads| == |t.felems| && t.heads[f] == t.felems[f] != -1
    ensures HighTier(t, freq, hpos, dom, sqrtu, loose, -1)
  {
    hide Lists, CellPool, NodePool, Housed;
  }

  // --- creating a node ---

  /** Node `g` is taken off the free list and linked in with frequency `v`; `smaller'` and `larger'` are the
      new link columns. */
  ghost function Created(t: Tier, v: int, smaller': seq<int>, larger': seq<int>, smallest': int,
                         largest': int): (r: Tier)
    requires 0 <= t.freeff < |t.flarger| == |t.ffreq| == |t.owner| && t.freeNodes != []
  {
    t.(freeff := t.flarger[t.freeff], freeNodes := t.freeNodes[..|t.freeNodes| - 1], ffreq := t.ffreq[t.freeff := v],
       fsmaller := smaller', flarger := larger', smallest := smallest', largest := largest',
           owner := t.owner[t.freeff := 0])
  }

  /** Creation, given that the new links are in order. */
  lemma CreateOk(t: Tier, freq: seq<int>, hpos: seq<int>, dom: set<int>, sqrtu: int, loose: int, v: int,
                 smaller': seq<int>, larger': seq<int>, smallest': int, largest': int)
    requires HighTier(t, freq, hpos, dom, sqrtu, loose, -1) && v >= sqrtu
    requires t.freeNodes != [] && 0 <= t.freeff < sqrtu == |t.ffreq| == |t.flarger| == |larger'|
    requires Lists(Created(t, v, smaller', larger', smallest', largest'))
    requires forall x :: x in t.freeNodes && x != t.freeff && 0 <= x < sqrtu ==> larger'[x] == t.flarger[x]
    ensures HighTier(Created(t, v, smaller', larger', smallest', largest'), freq, hpos, dom, sqrtu, loose, t.freeff)
    ensures |t.heads| == sqrtu && t.heads[t.freeff] == -1
  {
    hide Lists, CellPool;
    TierSizes(t, freq, hpos, dom, sqrtu, loose, -1);
    CreatePool(t.flarger, t.freeff, t.freeNodes, t.owner, larger');
    hide FreeStack;
  }

  lemma CreatePool(flarger: seq<int>, freeff: int, freeNodes: seq<int>, owner: seq<int>, larger': seq<int>)
    requires NodePool(flarger, freeff, freeNodes, owner) && freeNodes != [] && |larger'| == |flarger|
    requires forall x :: x in freeNodes && x != freeff && 0 <= x < |flarger| ==> larger'[x] == flarger[x]
    ensures 0 <= freeff < |flarger| && owner[freeff] < 0
    ensures NodePool(larger', flarger[freeff], freeNodes[..|freeNodes| - 1], owner[freeff := 0])
  {
    StackPopped(flarger, freeff, freeNodes);
    var rest := freeNodes[..|freeNodes| - 1];
    forall x | x in rest ensures 0 <= x < |flarger| && larger'[x] == flarger[x] {
      assert x in freeNodes;
    }
    StackFrame(flarger, larger', flarger[freeff], rest);
  }

  /** A free node is available when a cell is loose and no node is hollow. */
  lemma FreshNode(t: Tier, freq: seq<int>, hpos: seq<int>, dom: set<int>, sqrtu: int, loose: int)
    requires HighTier(t, freq, hpos, dom, sqrtu, loose, -1) && loose != -1
    ensures t.freeNodes != [] && 0 <= t.freeff < sqrtu && t.owner[t.freeff] < 0
  {
    TierSizes(t, freq, hpos, dom, sqrtu, loose, -1);
    assert forall f :: 0 <= f < |t.heads| && t.heads[f] != -1 ==>
                         0 <= t.heads[f] < |t.home| && t.home[t.heads[f]] == f by {
      hide CellPool, NodePool, Elems, Housed, NextOk, PrevOk, Ordered;
    }
    hide Lists, Housed;
    NodeLeft(t.heads, t.felems, t.home, t.flarger, t.freeff, t.freeNodes, t.owner, loose);
    StackPopped(t.flarger, t.freeff, t.freeNodes);
  }

  /** The list of nodes with node `g` inserted next above node `f`. */
  lemma AboveLists(t: Tier, f: int, g: int, v: int, freeff': int, freeNodes': seq<int>)
    requires Lists(t) && InList(t.owner, f) && 0 <= g < |t.owner| && t.owner[g] < 0
    requires |t.flarger| == |t.fsmaller| == |t.owner| == |t.ffreq| && -1 <= t.flarger[f] < |t.owner|
    requires t.ffreq[f] < v && (t.flarger[f] != -1 ==> v < t.ffreq[t.flarger[f]])
    ensures var up := t.flarger[f];
            Lists(t.(freeff := freeff', freeNodes := freeNodes', ffreq := t.ffreq[g := v],
                     fsmaller := (if up == -1 then t.fsmaller else t.fsmaller[up := g])[g := f],
                     flarger := t.flarger[g := up][f := g], largest := if up == -1 then g else t.largest,
                     owner := t.owner[g := 0]))
  {
    hide Threaded;
    NodeLinks(t, f);
    var up := t.flarger[f];
    var fsmaller' := (if up == -1 then t.fsmaller else t.fsmaller[up := g])[g := f];
    if up == -1 {
      Pushed(t.fsmaller, t.flarger, [t.largest], t.owner, t.ffreq, 0, g, -1, v);
      assert PushPrev(t.flarger, [t.largest], 0, g, -1) == t.flarger[g := up][f := g];
      assert [t.largest][0 := g] == [g];
    } else {
      Inserted(t.fsmaller, t.flarger, [t.largest], t.owner, t.ffreq, up, g, v);
      assert InsertNext(t.fsmaller, up, g) == fsmaller';
      assert InsertPrev(t.fsmaller, t.flarger, up, g) == t.flarger[g := up][f := g];
    }
    assert forall x :: 0 <= x < |fsmaller'| && x != g && x != up ==> fsmaller'[x] == t.fsmaller[x];
  }

  lemma NodeLinks(t: Tier, f: int)
    requires Lists(t) && InList(t.owner, f)
    ensures |t.flarger| == |t.fsmaller| == |t.owner| && -1 <= t.flarger[f] < |t.owner|
    ensures -1 <= t.fsmaller[f] < |t.owner|
    ensures t.owner[f] == 0
    ensures t.flarger[f] != -1 ==> t.fsmaller[t.flarger[f]] == f && t.owner[t.flarger[f]] == 0
    ensures t.fsmaller[f] != -1 ==> t.flarger[t.fsmaller[f]] == f && t.owner[t.fsmaller[f]] == 0
    ensures t.flarger[f] == -1 ==> t.largest == f
    ensures t.fsmaller[f] == -1 ==> t.smallest == f
  {
    hide Ordered;
  }

  /** The list of nodes with node `g` inserted next below node `f`. */
  lemma BelowLists(t: Tier, f: int, g: int, v: int, freeff': int, freeNodes': seq<int>)
    requires Lists(t) && InList(t.owner, f) && 0 <= g < |t.owner| && t.owner[g] < 0
    requires |t.flarger| == |t.fsmaller| == |t.owner| == |t.ffreq| && -1 <= t.fsmaller[f] < |t.owner|
    requires v < t.ffreq[f] && (t.fsmaller[f] != -1 ==> t.ffreq[t.fsmaller[f]] < v)
    ensures var down := t.fsmaller[f];
            Lists(t.(freeff := freeff', freeNodes := freeNodes', ffreq := t.ffreq[g := v],
                     fsmaller := t.fsmaller[g := down][f := g],
                     flarger := (if down == -1 then t.flarger else t.flarger[down := g])[g := f],
                     smallest := if down == -1 then g else t.smallest, owner := t.owner[g := 0]))
  {
    hide Threaded;
    NodeLinks(t, f);
    var down := t.fsmaller[f];
    var fsmaller' := t.fsmaller[g := down][f := g];
    Inserted(t.fsmaller, t.flarger, [t.largest], t.owner, t.ffreq, f, g, v);
    assert InsertNext(t.fsmaller, f, g) == fsmaller';
    assert forall x :: 0 <= x < |fsmaller'| && x != g && x != f ==> fsmaller'[x] == t.fsmaller[x];
  }

  /** The list of nodes when `g` becomes the only one. */
  lemma FirstLists(t: Tier, g: int, v: int, freeff': int, freeNodes': seq<int>)
    requires Lists(t) && t.smallest == -1 && 0 <= g < |t.owner|
    requires |t.flarger| == |t.fsmaller| == |t.owner| == |t.ffreq|
    ensures t.largest == -1
    ensures Lists(t.(freeff := freeff', freeNodes := freeNodes', ffreq := t.ffreq[g := v],
                     fsmaller := t.fsmaller[g := -1], flarger := t.flarger[g := -1],
                     smallest := g, largest := g, owner := t.owner[g := 0]))
  {
    NoNodes(t);
    hide Threaded;
    Pushed(t.fsmaller, t.flarger, [t.largest], t.owner, t.ffreq, 0, g, -1, v);
    assert [t.largest][0 := g] == [g];
  }

  lemma NoNodes(t: Tier)
    requires Lists(t) && t.smallest == -1
    ensures t.largest == -1 && forall f :: 0 <= f < |t.owner| ==> t.owner[f] < 0
  {
    hide NextOk, PrevOk, Ordered;
    forall f | 0 <= f < |t.owner| ensures t.owner[f] < 0 {
      assert t.fsmaller[f] == -1 || t.fsmaller[f] != -1;
    }
    assert [t.largest][0] == t.largest;
  }

  lemma FreeUnused(flarger: seq<int>, freeff: int, freeNodes: seq<int>, owner: seq<int>)
    requires NodePool(flarger, freeff, freeNodes, owner)
    ensures forall x :: x in freeNodes && 0 <= x < |owner| ==> owner[x] < 0
  {
  }

  ghost function Above(t: Tier, f: int, v: int): (r: Tier)
    requires 0 <= f < |t.flarger| == |t.fsmaller| == |t.ffreq| == |t.owner| && -1 <= t.flarger[f] < |t.flarger|
    requires t.freeNodes != [] && 0 <= t.freeff < |t.flarger|
  {
    var g, up := t.freeff, t.flarger[f];
    Created(t, v, (if up == -1 then t.fsmaller else t.fsmaller[up := g])[g := f], t.flarger[g := up][f := g],
            t.smallest, if up == -1 then g else t.largest)
  }

  lemma AboveOk(t: Tier, freq: seq<int>, hpos: seq<int>, dom: set<int>, sqrtu: int, loose: int, f: int, v: int)
    requires HighTier(t, freq, hpos, dom, sqrtu, loose, -1) && loose != -1
    requires 0 <= f < sqrtu == |t.ffreq| == |t.flarger| == |t.fsmaller| && t.owner[f] >= 0 && sqrtu <= t.ffreq[f] < v
    requires -1 <= t.flarger[f] < sqrtu && (t.flarger[f] != -1 ==> v < t.ffreq[t.flarger[f]])
    ensures t.freeNodes != [] && 0 <= t.freeff < sqrtu && t.owner[t.freeff] < 0
    ensures t.freeff != f && t.freeff != t.flarger[f] && f != t.flarger[f]
    ensures HighTier(Above(t, f, v), freq, hpos, dom, sqrtu, loose, t.freeff)
    ensures |t.heads| == sqrtu && t.heads[t.freeff] == -1
  {
    hide CellPool, NodePool, Elems, Housed, Lists;
    FreshNode(t, freq, hpos, dom, sqrtu, loose);
    LooseFacts(t, freq, hpos, dom, sqrtu, loose, -1, f);
    FreeUnused(t.flarger, t.freeff, t.freeNodes, t.owner);
    AboveLists(t, f, t.freeff, v, t.flarger[t.freeff], t.freeNodes[..|t.freeNodes| - 1]);
    var t' := Above(t, f, v);
    CreateOk(t, freq, hpos, dom, sqrtu, loose, v, t'.fsmaller, t'.flarger, t'.smallest, t'.largest);
  }

  ghost function BelowNode(t: Tier, f: int, v: int): (r: Tier)
    requires 0 <= f < |t.flarger| == |t.fsmaller| == |t.ffreq| == |t.owner| && -1 <= t.fsmaller[f] < |t.flarger|
    requires t.freeNodes != [] && 0 <= t.freeff < |t.flarger|
  {
    var g, down := t.freeff, t.fsmaller[f];
    Created(t, v, t.fsmaller[g := down][f := g], (if down == -1 then t.flarger else t.flarger[down := g])[g := f],
            if down == -1 then g else t.smallest, t.largest)
  }

  lemma BelowOk(t: Tier, freq: seq<int>, hpos: seq<int>, dom: set<int>, sqrtu: int, loose: int, f: int, v: int)
    requires HighTier(t, freq, hpos, dom, sqrtu, loose, -1) && loose != -1
    requires 0 <= f < sqrtu == |t.ffreq| == |t.flarger| == |t.fsmaller| && t.owner[f] >= 0 && sqrtu <= v < t.ffreq[f]
    requires -1 <= t.fsmaller[f] < sqrtu && (t.fsmaller[f] != -1 ==> t.ffreq[t.fsmaller[f]] < v)
    ensures t.freeNodes != [] && 0 <= t.freeff < sqrtu && t.owner[t.freeff] < 0
    ensures t.freeff != f && t.freeff != t.fsmaller[f] && f != t.fsmaller[f]
    ensures HighTier(BelowNode(t, f, v), freq, hpos, dom, sqrtu, loose, t.freeff)
    ensures |t.heads| == sqrtu && t.heads[t.freeff] == -1
  {
    hide CellPool, NodePool, Elems, Housed, Lists;
    FreshNode(t, freq, hpos, dom, sqrtu, loose);
    LooseFacts(t, freq, hpos, dom, sqrtu, loose, -1, f);
    FreeUnused(t.flarger, t.freeff, t.freeNodes, t.owner);
    BelowLists(t, f, t.freeff, v, t.flarger[t.freeff], t.freeNodes[..|t.freeNodes| - 1]);
    var t' := BelowNode(t, f, v);
    CreateOk(t, freq, hpos, dom, sqrtu, loose, v, t'.fsmaller, t'.flarger, t'.smallest, t'.largest);
  }

  ghost function FirstNode(t: Tier, v: int): (r: Tier)
    requires t.freeNodes != [] && 0 <= t.freeff < |t.flarger| == |t.fsmaller| == |t.ffreq| == |t.owner|
  {
    var g := t.freeff;
    Created(t, v, t.fsmaller[g := -1], t.flarger[g := -1], g, g)
  }

  lemma FirstOk(t: Tier, freq: seq<int>, hpos: seq<int>, dom: set<int>, sqrtu: int, loose: int, v: int)
    requires HighTier(t, freq, hpos, dom, sqrtu, loose, -1) && loose != -1 && t.smallest == -1 && sqrtu <= v
    ensures |t.ffreq| == |t.flarger| == |t.fsmaller| == sqrtu && t.largest == -1
    ensures t.freeNodes != [] && 0 <= t.freeff < sqrtu && t.owner[t.freeff] < 0
    ensures HighTier(FirstNode(t, v), freq, hpos, dom, sqrtu, loose, t.freeff)
    ensures |t.heads| == sqrtu && t.heads[t.freeff] == -1
  {
    hide CellPool, NodePool, Elems, Housed, Lists;
    TierSizes(t, freq, hpos, dom, sqrtu, loose, -1);
    FreshNode(t, freq, hpos, dom, sqrtu, loose);
    FreeUnused(t.flarger, t.freeff, t.freeNodes, t.owner);
    FirstLists(t, t.freeff, v, t.flarger[t.freeff], t.freeNodes[..|t.freeNodes| - 1]);
    var t' := FirstNode(t, v);
    CreateOk(t, freq, hpos, dom, sqrtu, loose, v, t'.fsmaller, t'.flarger, t'.smallest, t'.largest);
  }

  // --- changing the frequency of a node with a single record in place ---

  lemma RerankOk(t: Tier, freq: seq<int>, hpos: seq<int>, dom: set<int>, sqrtu: int, x: int, v: int)
    requires HighTier(t, freq, hpos, dom, sqrtu, -1, -1) && 0 <= x < sqrtu && t.home[x] >= 0 && v >= sqrtu
    requires |t.cprev| == |t.cnext| == |t.cid| == |t.cfnode| == sqrtu && t.cprev[x] == -1 == t.cnext[x]
    requires 0 <= t.cfnode[x] < sqrtu == |t.ffreq| == |t.flarger| == |t.fsmaller| && 0 <= t.cid[x] < |freq|
    requires var up := t.flarger[t.cfnode[x]]; up >= 0 ==> up < sqrtu && v < t.ffreq[up]
    requires var down := t.fsmaller[t.cfnode[x]]; down >= 0 ==> down < sqrtu && t.ffreq[down] < v
    ensures HighTier(t.(ffreq := t.ffreq[t.cfnode[x] := v]), freq[t.cid[x] := v], hpos, dom, sqrtu, -1, -1)
  {
    hide CellPool, NodePool, Elems, Housed, Threaded, Bottom, Marks;
    CellFacts(t, freq, hpos, dom, sqrtu, x);
    var f := t.cfnode[x];
    LooseFacts(t, freq, hpos, dom, sqrtu, -1, -1, f);
    Reranked(t.fsmaller, t.flarger, [t.largest], t.owner, t.ffreq, f, v);
    forall y | 0 <= y < sqrtu && t.home[y] == f ensures y == x {
      LoneCell(t.cnext, t.cprev, t.heads, t.home, t.rank, x, y);
    }
    RerankHoused(t, freq, hpos, dom, sqrtu, x, v);
  }

  lemma RerankHoused(t: Tier, freq: seq<int>, hpos: seq<int>, dom: set<int>, sqrtu: int, x: int, v: int)
    requires HighTier(t, freq, hpos, dom, sqrtu, -1, -1) && 0 <= x < sqrtu && t.home[x] >= 0 && v >= sqrtu
    requires |t.cid| == |t.cfnode| == |t.ffreq| == sqrtu && 0 <= t.cid[x] < |freq| && 0 <= t.cfnode[x] < sqrtu
    requires forall y :: 0 <= y < sqrtu && t.home[y] == t.cfnode[x] ==> y == x
    ensures Housed(t.cid, t.cfnode, t.home, t.ffreq[t.cfnode[x] := v], t.owner, freq[t.cid[x] := v], hpos, dom, sqrtu)
  {
    hide CellPool, NodePool, Elems, Lists;
  }

  /** Records outside `dom` do not matter. */
  lemma HighFrame(t: Tier, freq: seq<int>, hpos: seq<int>, dom: set<int>, sqrtu: int, loose: int, hollow: int,
                  id: int, v: int, w: int)
    requires HighTier(t, freq, hpos, dom, sqrtu, loose, hollow) && 0 <= id < |freq| && id !in dom
    ensures |freq| == |hpos| && HighTier(t, freq[id := v], hpos[id := w], dom, sqrtu, loose, hollow)
  {
    hide Lists, CellPool, NodePool, Elems;
  }

  lemma LowFrame(infreq: seq<seq<int>>, freq: seq<int>, hpos: seq<int>, dom: set<int>, sqrtu: int, id: int, v: int)
    requires LowTier(infreq, freq, hpos, dom, sqrtu, 0) && 0 <= id < |freq| && id !in dom
    ensures LowTier(infreq, freq[id := v], hpos, dom, sqrtu, 0)
  {
  }

  lemma IdFacts(t: Tier, freq: seq<int>, hpos: seq<int>, dom: set<int>, sqrtu: int, loose: int, hollow: int, id: int)
    requires HighTier(t, freq, hpos, dom, sqrtu, loose, hollow) && id in dom && 0 <= id < |freq| && freq[id] >= sqrtu
    ensures |freq| == |hpos| && 0 <= hpos[id] < sqrtu == |t.home| == |t.cid| && t.home[hpos[id]] >= 0
            && t.cid[hpos[id]] == id
  {
    hide Lists, CellPool, NodePool, Elems;
  }

  lemma LowRaised(infreq: seq<seq<int>>, freq: seq<int>, hpos: seq<int>, dom: set<int>, sqrtu: int, id: int, v: int)
    requires LowTier(infreq, freq, hpos, dom, sqrtu, 0) && 1 <= sqrtu
    requires 0 <= id < |freq| && v >= sqrtu && (id in dom ==> freq[id] >= sqrtu)
    ensures LowTier(infreq, freq[id := v], hpos, dom + {id}, sqrtu, 0)
  {
  }

  /** Records of low frequency do not matter to the high tier. */
  lemma HighShrink(t: Tier, freq: seq<int>, hpos: seq<int>, dom: set<int>, sqrtu: int, id: int)
    requires HighTier(t, freq, hpos, dom, sqrtu, -1, -1) && id in dom && 0 <= id < |freq| && freq[id] < sqrtu
    ensures HighTier(t, freq, hpos, dom - {id}, sqrtu, -1, -1)
    ensures HighIds(freq, dom - {id}, sqrtu) == HighIds(freq, dom, sqrtu)
  {
    LowIsNotHoused(t, freq, hpos, dom, sqrtu, id);
    hide Lists, CellPool, NodePool, Elems;
  }

  lemma LowIsNotHoused(t: Tier, freq: seq<int>, hpos: seq<int>, dom: set<int>, sqrtu: int, id: int)
    requires HighTier(t, freq, hpos, dom, sqrtu, -1, -1) && id in dom && 0 <= id < |freq| && freq[id] < sqrtu
    ensures |t.cid| == |t.home| == sqrtu && forall x :: 0 <= x < sqrtu && t.home[x] >= 0 ==> t.cid[x] != id
  {
    hide Lists, CellPool, NodePool, Elems;
  }

  lemma HighRehang(t: Tier, freq: seq<int>, hpos: seq<int>, dom: set<int>, sqrtu: int, id: int, w: int)
    requires HighTier(t, freq, hpos, dom, sqrtu, -1, -1) && 0 <= id < |freq| && freq[id] < sqrtu
    ensures |freq| == |hpos| && HighTier(t, freq, hpos[id := w], dom, sqrtu, -1, -1)
  {
    if id in dom {
      LowIsNotHoused(t, freq, hpos, dom, sqrtu, id);
    }
    hide Lists, CellPool, NodePool, Elems;
  }

  lemma HighGrow(t: Tier, freq: seq<int>, hpos: seq<int>, dom: set<int>, sqrtu: int, id: int)
    requires HighTier(t, freq, hpos, dom, sqrtu, -1, -1) && id !in dom && 0 <= id < |freq| && freq[id] < sqrtu
    ensures HighTier(t, freq, hpos, dom + {id}, sqrtu, -1, -1)
  {
    hide Lists, CellPool, NodePool, Elems;
  }

  /** The id kept in a cell that is on no list does not matter. */
  lemma CidFrame(t: Tier, freq: seq<int>, hpos: seq<int>, dom: set<int>, sqrtu: int, x: int, id: int)
    requires HighTier(t, freq, hpos, dom, sqrtu, x, -1) && 0 <= x < |t.cid|
    ensures HighTier(t.(cid := t.cid[x := id]), freq, hpos, dom, sqrtu, x, -1)
  {
    hide Threaded, Marks, Bottom, NodePool, Elems;
  }

  /** `smallest` is a node in use, with nothing below it, or there are no nodes. */
  lemma SmallestFacts(t: Tier, freq: seq<int>, hpos: seq<int>, dom: set<int>, sqrtu: int, loose: int)
    requires HighTier(t, freq, hpos, dom, sqrtu, loose, -1) && t.smallest != -1
    ensures 0 <= t.smallest < sqrtu && t.owner[t.smallest] >= 0
    ensures |t.fsmaller| == |t.ffreq| == sqrtu && t.fsmaller[t.smallest] == -1 && t.ffreq[t.smallest] >= sqrtu
  {
    hide Threaded, CellPool, NodePool, Elems;
  }

  lemma LowShrink(infreq: seq<seq<int>>, freq: seq<int>, hpos: seq<int>, dom: set<int>, sqrtu: int, id: int)
    requires LowTier(infreq, freq, hpos, dom, sqrtu, 0) && 0 <= id < |freq| && freq[id] >= sqrtu
    ensures LowTier(infreq, freq, hpos, dom - {id}, sqrtu, 0)
  {
  }

  lemma NoneAt(infreq: seq<seq<int>>, freq: seq<int>, hpos: seq<int>, dom: set<int>, sqrtu: int, f: int)
    requires LowTier(infreq, freq, hpos, dom, sqrtu, 0) && 1 <= f < sqrtu && infreq[f] == []
    ensures forall i :: i in dom ==> 0 <= i < |freq| && freq[i] != f
  {
  }

  lemma LowBounds(infreq: seq<seq<int>>, freq: seq<int>, hpos: seq<int>, dom: set<int>, sqrtu: int)
    requires LowTier(infreq, freq, hpos, dom, sqrtu, 0)
    ensures |infreq| == sqrtu && forall i :: i in dom ==> 0 <= i < |freq| && freq[i] >= 1
  {
  }

  lemma LastIsLow(infreq: seq<seq<int>>, freq: seq<int>, hpos: seq<int>, dom: set<int>, sqrtu: int, f: int)
    requires LowTier(infreq, freq, hpos, dom, sqrtu, 0) && 1 <= f < sqrtu && infreq[f] != []
    ensures var last := infreq[f][|infreq[f]| - 1]; last in dom && 0 <= last < |freq| && freq[last] == f
  {
    var last := infreq[f][|infreq[f]| - 1];
  }

  lemma LowEnter(infreq: seq<seq<int>>, freq: seq<int>, hpos: seq<int>, dom: set<int>, sqrtu: int, id: int, w: int)
    requires LowTier(infreq, freq, hpos, dom, sqrtu, 0) && id !in dom && 0 <= id < |freq| && sqrtu >= 1
    ensures LowTier(infreq, freq[id := sqrtu], hpos[id := w], dom + {id}, sqrtu, 0)
  {
  }

  /** `largest` heads the node list, and no record of `dom` is more frequent than its node. */
  lemma LargestIsMax(t: Tier, freq: seq<int>, hpos: seq<int>, dom: set<int>, sqrtu: int)
    requires HighTier(t, freq, hpos, dom, sqrtu, -1, -1)
    ensures t.largest == -1 ==> forall id :: id in dom ==> 0 <= id < |freq| && freq[id] < sqrtu
    ensures t.largest != -1 ==> 0 <= t.largest < sqrtu == |t.owner| == |t.flarger| == |t.ffreq|
                                && t.owner[t.largest] >= 0 && t.flarger[t.largest] == -1
    ensures t.largest != -1 ==> forall id :: id in dom ==> 0 <= id < |freq| && freq[id] <= t.ffreq[t.largest]
  {
    TierSizes(t, freq, hpos, dom, sqrtu, -1, -1);
    LargestFacts(t);
    hide Threaded, CellPool, NodePool, Elems;
    forall id | id in dom && freq[id] >= sqrtu
      ensures t.largest != -1 && freq[id] <= t.ffreq[t.largest]
    {
      var f := t.home[hpos[id]];
      assert InList(t.owner, f);
      NodeBelowLargest(t, f);
    }
  }

  lemma LargestFacts(t: Tier)
    requires Lists(t)
    ensures |t.owner| == |t.flarger|
    ensures t.largest != -1 ==> InList(t.owner, t.largest) && t.flarger[t.largest] == -1
  {
    hide NextOk, PrevOk, Ordered;
    assert [t.largest][0] == t.largest;
  }

  lemma NodeBelowLargest(t: Tier, f: int)
    requires Lists(t) && InList(t.owner, f)
    ensures |t.ffreq| == |t.owner| && InList(t.owner, t.largest) && t.ffreq[f] <= t.ffreq[t.largest]
  {
    assert t.owner[f] == 0;
    assert [t.largest][0] == t.largest;
    hide NextOk, PrevOk, Ordered;
    assert InList(t.owner, t.largest) && t.owner[t.largest] == 0 && t.flarger[t.largest] < 0;
    OrderAt(t.fsmaller, t.flarger, [t.largest], t.owner, t.ffreq, t.largest, f);
  }

  // ---------- moving a record to another id, and purging ----------

  /** The low tier once record `last` has become record `id`. */
  lemma LowMoved(infreq: seq<seq<int>>, freq: seq<int>, hpos: seq<int>, dom: set<int>, sqrtu: int, lo: int, id: int,
                 last: int)
    requires LowTier(infreq, freq, hpos, dom, sqrtu, lo) && last in dom && id !in dom && 0 <= id < |freq|
    ensures var f, k := freq[last], hpos[last];
            LowTier(if f < sqrtu then infreq[f := infreq[f][k := id]] else infreq,
                    freq[id := f], hpos[id := k], dom - {last} + {id}, sqrtu, lo)
  {
    var f, k := freq[last], hpos[last];
    var infreq' := if f < sqrtu then infreq[f := infreq[f][k := id]] else infreq;
    forall g, j | 1 <= g < sqrtu && 0 <= j < |infreq'[g]| && (g == 1 ==> lo <= j)
      ensures infreq'[g][j] in dom - {last} + {id} && freq[id := f][infreq'[g][j]] == g
      ensures hpos[id := k][infreq'[g][j]] == j
    {
      assert (f < sqrtu && g == f && j == k) || infreq'[g][j] == infreq[g][j];
    }
  }

  /** The high tier once record `last` has become record `id`. */
  lemma HighMoved(t: Tier, freq: seq<int>, hpos: seq<int>, dom: set<int>, sqrtu: int, id: int, last: int)
    requires HighTier(t, freq, hpos, dom, sqrtu, -1, -1) && last in dom && id !in dom && 0 <= id < |freq|
    ensures 0 <= last < |freq| == |hpos| && (freq[last] >= sqrtu ==> 0 <= hpos[last] < |t.cid|)
    ensures HighTier(if freq[last] < sqrtu then t else t.(cid := t.cid[hpos[last] := id]),
                     freq[id := freq[last]], hpos[id := hpos[last]], dom - {last} + {id}, sqrtu, -1, -1)
  {
    TierSizes(t, freq, hpos, dom, sqrtu, -1, -1);
    HighMovedHoused(t, freq, hpos, dom, sqrtu, id, last);
    hide Threaded, Marks, Bottom, CellPool, NodePool, Elems, Housed;
  }

  lemma HighMovedHoused(t: Tier, freq: seq<int>, hpos: seq<int>, dom: set<int>, sqrtu: int, id: int, last: int)
    requires HighTier(t, freq, hpos, dom, sqrtu, -1, -1) && last in dom && id !in dom && 0 <= id < |freq|
    ensures 0 <= last < |freq| == |hpos| && (freq[last] >= sqrtu ==> 0 <= hpos[last] < |t.cid|)
    ensures Housed(if freq[last] < sqrtu then t.cid else t.cid[hpos[last] := id], t.cfnode, t.home, t.ffreq, t.owner,
                   freq[id := freq[last]], hpos[id := hpos[last]], dom - {last} + {id}, sqrtu)
  {
    hide Lists, CellPool, NodePool, Elems;
  }

  /** Rows beyond the records in use do not matter. */
  lemma LowTruncated(infreq: seq<seq<int>>, freq: seq<int>, hpos: seq<int>, dom: set<int>, sqrtu: int, lo: int, n: int)
    requires LowTier(infreq, freq, hpos, dom, sqrtu, lo) && 0 <= n <= |freq| && forall id :: id in dom ==> id < n
    ensures LowTier(infreq, freq[..n], hpos[..n], dom, sqrtu, lo)
  {
  }

  lemma HighTruncated(t: Tier, freq: seq<int>, hpos: seq<int>, dom: set<int>, sqrtu: int, n: int)
    requires HighTier(t, freq, hpos, dom, sqrtu, -1, -1) && 0 <= n <= |freq| && forall id :: id in dom ==> id < n
    ensures |freq| == |hpos| && HighTier(t, freq[..n], hpos[..n], dom, sqrtu, -1, -1)
  {
    hide Lists, CellPool, NodePool, Elems;
  }

  /** Rows added beyond the records in use do not matter. */
  lemma LowExtended(infreq: seq<seq<int>>, freq: seq<int>, hpos: seq<int>, dom: set<int>, sqrtu: int, a: int, b: int)
    requires LowTier(infreq, freq, hpos, dom, sqrtu, 0)
    ensures LowTier(infreq, freq + [a], hpos + [b], dom, sqrtu, 0)
  {
  }

  lemma HighExtended(t: Tier, freq: seq<int>, hpos: seq<int>, dom: set<int>, sqrtu: int, a: int, b: int)
    requires HighTier(t, freq, hpos, dom, sqrtu, -1, -1)
    ensures HighTier(t, freq + [a], hpos + [b], dom, sqrtu, -1, -1)
  {
    hide Lists, CellPool, NodePool, Elems;
  }

  /** The first record of `infreq[1]` not yet purged leaves the heap. */
  lemma LowPurged(infreq: seq<seq<int>>, freq: seq<int>, hpos: seq<int>, dom: set<int>, sqrtu: int, lo: int)
    requires LowTier(infreq, freq, hpos, dom, sqrtu, lo) && 2 <= sqrtu && 0 <= lo < |infreq[1]|
    ensures infreq[1][lo] in dom && LowTier(infreq, freq, hpos, dom - {infreq[1][lo]}, sqrtu, lo + 1)
    ensures freq[infreq[1][lo]] == 1
  {
    var id := infreq[1][lo];
    assert id in dom && freq[id] == 1 && hpos[id] == lo;
  }

  /** Once all of `infreq[1]` has been purged, it can be emptied. */
  lemma LowEmptied(infreq: seq<seq<int>>, freq: seq<int>, hpos: seq<int>, dom: set<int>, sqrtu: int)
    requires 2 <= sqrtu == |infreq| && LowTier(infreq, freq, hpos, dom, sqrtu, |infreq[1]|)
    ensures LowTier(infreq[1 := []], freq, hpos, dom, sqrtu, 0) && forall id :: id in dom ==> freq[id] >= 2
  {
  }

  class FreqHeap {
    var sqrtu: int
    var max: int
    var infreq: seq<seq<int>>
    var hi: Tier
    const rec: Records

    ghost predicate Low(dom: set<int>, lo: int)
      reads this, rec
    {
      LowTier(infreq, rec.freq, rec.hpos, dom, sqrtu, lo)
    }

    ghost predicate High(dom: set<int>, loose: int, hollow: int)
      reads this, rec
    {
      HighTier(hi, rec.freq, rec.hpos, dom, sqrtu, loose, hollow)
    }

    ghost predicate Valid(dom: set<int>, lo: int)
      reads this, rec
    {
      Low(dom, lo) && High(dom, -1, -1) && 0 <= max <= sqrtu
    }

    /** An empty heap for a text of `u` symbols; both pools get the smallest size `sqrtu` >= 2 with
        `sqrtu * sqrtu >= u`. */
    constructor (u: int, rec: Records)
      requires |rec.freq| == |rec.hpos|
      ensures this.rec == rec && Valid({}, 0) && max == sqrtu
      ensures sqrtu * sqrtu >= u && (sqrtu == 2 || (sqrtu - 1) * (sqrtu - 1) < u)
    {
      var s := 2;
      while s * s < u
        invariant s >= 2 && (s == 2 || (s - 1) * (s - 1) < u)
        decreases u - s
      {
        s := s + 1;
      }
      this.rec := rec;
      sqrtu, max := s, s;
      infreq := seq(s, _ => []);
      var blank := seq(s, _ => 0);
      hi := Tier(blank, blank, Chain(s), blank, 0, blank, blank, Chain(s), blank, 0, -1, -1,
                 seq(s, _ => -1), blank, seq(s, _ => -1), seq(s, _ => -1), Countdown(s), Countdown(s));
      new;
      EmptyTier(hi, rec.freq, rec.hpos, s);
      hide HighTier;
    }

    /** Takes cell `x` off the list of its node. */
    method Detach(x: int, ghost dom: set<int>)
      requires High(dom, -1, -1) && 0 <= x < |hi.home| && hi.home[x] >= 0
      modifies this`hi
      ensures 0 <= x < |hi.cid| == |hi.cfnode| && 0 <= hi.cfnode[x] < |hi.felems|
      ensures old(|hi.cnext| == |hi.cprev| == |hi.cid|)
      ensures -1 <= old(hi).cnext[x] < |hi.cnext| && old(hi).cprev[x] < |hi.cnext| && |old(hi).heads| == |hi.felems|
      ensures hi == Detached(old(hi), x, hi.cfnode[x]) && High(dom - {hi.cid[x]}, x, hi.cfnode[x])
    {
      hide HighTier;
      ghost var t := hi;
      TierSizes(t, rec.freq, rec.hpos, dom, sqrtu, -1, -1);
      CellFacts(t, rec.freq, rec.hpos, dom, sqrtu, x);
      DetachOk(t, rec.freq, rec.hpos, dom, sqrtu, x);
      var f := hi.cfnode[x];
      if hi.cprev[x] == -1 {
        hi := hi.(felems := hi.felems[f := hi.cnext[x]]);
      } else {
        hi := hi.(cnext := hi.cnext[hi.cprev[x] := hi.cnext[x]]);
      }
      if hi.cnext[x] != -1 {
        hi := hi.(cprev := hi.cprev[hi.cnext[x] := hi.cprev[x]]);
      }
      hi := hi.(heads := UnlinkHead(t.cnext, t.cprev, t.heads, f, x), home := hi.home[x := -1]);
      assert hi == Detached(t, x, f);
    }

    /** Puts the loose cell `x` of record `id` in front of the list of node `g`; `first` says that `g` is new. */
    method Attach(x: int, g: int, first: bool, ghost id: int, ghost dom: set<int>, ghost hollow: int)
      requires High(dom, x, hollow) && x != -1 && 0 <= g < sqrtu && 0 <= g < |hi.owner| && hi.owner[g] >= 0
      requires 0 <= x < |hi.cid| && 0 <= id < |rec.hpos| == |rec.freq| && id !in dom && g < |hi.ffreq|
      requires hi.cid[x] == id && rec.hpos[id] == x && rec.freq[id] == hi.ffreq[g]
      requires if first then g == hollow && g < |hi.heads| && hi.heads[g] == -1 else g != hollow
      modifies this`hi
      ensures old(|hi.cnext| == |hi.cprev| == |hi.home| == |hi.cfnode| == |hi.rank|) && x < |old(hi).cnext|
      ensures g < |old(hi).heads| == |old(hi).felems| && -1 <= old(hi).heads[g] < |old(hi).cnext|
      ensures hi == Attached(old(hi), x, g) && High(dom + {id}, -1, if hollow == g then -1 else hollow)
    {
      hide HighTier;
      ghost var t := hi;
      TierSizes(t, rec.freq, rec.hpos, dom, sqrtu, x, hollow);
      LooseFacts(t, rec.freq, rec.hpos, dom, sqrtu, x, hollow, g);
      AttachOk(t, rec.freq, rec.hpos, dom, sqrtu, x, hollow, g, id);
      if first {
        hi := hi.(cprev := hi.cprev[x := -1], cnext := hi.cnext[x := -1]);
      } else {
        hi := hi.(cprev := hi.cprev[hi.felems[g] := x][x := -1], cnext := hi.cnext[x := hi.felems[g]]);
      }
      hi := hi.(felems := hi.felems[g := x], cfnode := hi.cfnode[x := g]);
      hi := hi.(rank := hi.rank[x := TopRank(t, g)], heads := hi.heads[g := x], home := hi.home[x := g]);
      assert hi == Attached(t, x, g);
    }

    /** Unlinks node `f`, whose list has become empty, and frees it. */
    method DropNode(f: int, ghost dom: set<int>, ghost loose: int)
      requires High(dom, loose, f) && 0 <= f < sqrtu && f < |hi.owner| && hi.owner[f] >= 0 && f < |hi.heads|
               && hi.heads[f] == -1
      modifies this`hi
      ensures High(dom, loose, -1)
    {
      hide HighTier;
      ghost var t := hi;
      TierSizes(t, rec.freq, rec.hpos, dom, sqrtu, loose, f);
      DropOk(t, rec.freq, rec.hpos, dom, sqrtu, loose, f);
      var down, up := hi.fsmaller[f], hi.flarger[f];
      if down == -1 {
        hi := hi.(smallest := up);
      } else {
        hi := hi.(flarger := hi.flarger[down := up]);
      }
      if up == -1 {
        hi := hi.(largest := down);
      } else {
        hi := hi.(fsmaller := hi.fsmaller[up := down]);
      }
      hi := hi.(flarger := hi.flarger[f := hi.freeff], freeff := f);
      hi := hi.(freeNodes := hi.freeNodes + [f], owner := hi.owner[f := -1]);
      assert hi == Dropped(t, f);
    }

    /** A new node of frequency `v` next above node `f`. */
    method NodeAbove(f: int, v: int, ghost dom: set<int>, ghost loose: int) returns (g: int)
      requires High(dom, loose, -1) && loose != -1 && 0 <= f < sqrtu
      requires f < |hi.owner| == |hi.ffreq| == |hi.flarger| && hi.owner[f] >= 0 && sqrtu <= hi.ffreq[f] < v
      requires hi.flarger[f] == -1 || (0 <= hi.flarger[f] < |hi.ffreq| && v < hi.ffreq[hi.flarger[f]])
      modifies this`hi
      ensures old(hi.freeNodes != [] && f < |hi.owner| == |hi.ffreq| == |hi.flarger| == |hi.fsmaller|)
      ensures 0 <= g == old(hi.freeff) < |old(hi).flarger| && -1 <= old(hi).flarger[f] < |hi.flarger| && g != f
      ensures hi == Above(old(hi), f, v) && High(dom, loose, g) && g < |hi.heads| && hi.heads[g] == -1
    {
      hide HighTier;
      ghost var t := hi;
      TierSizes(t, rec.freq, rec.hpos, dom, sqrtu, loose, -1);
      AboveOk(t, rec.freq, rec.hpos, dom, sqrtu, loose, f, v);
      g := hi.freeff;
      var up := hi.flarger[f];
      hi := hi.(freeff := hi.flarger[g], ffreq := hi.ffreq[g := v], flarger := hi.flarger[g := up][f := g]);
      if up != -1 {
        hi := hi.(fsmaller := hi.fsmaller[up := g]);
      } else {
        hi := hi.(largest := g);
      }
      hi := hi.(fsmaller := hi.fsmaller[g := f]);
      hi := hi.(freeNodes := hi.freeNodes[..|hi.freeNodes| - 1], owner := hi.owner[g := 0]);
      assert hi == Above(t, f, v);
    }

    /** A new node of frequency `v` next below node `f`. */
    method NodeBelow(f: int, v: int, ghost dom: set<int>, ghost loose: int) returns (g: int)
      requires High(dom, loose, -1) && loose != -1 && 0 <= f < sqrtu
      requires f < |hi.owner| == |hi.ffreq| == |hi.fsmaller| && hi.owner[f] >= 0 && sqrtu <= v < hi.ffreq[f]
      requires hi.fsmaller[f] == -1 || (0 <= hi.fsmaller[f] < |hi.ffreq| && hi.ffreq[hi.fsmaller[f]] < v)
      modifies this`hi
      ensures old(hi.freeNodes != [] && f < |hi.owner| == |hi.ffreq| == |hi.flarger| == |hi.fsmaller|)
      ensures 0 <= g == old(hi.freeff) < |old(hi).flarger| && -1 <= old(hi).fsmaller[f] < |hi.flarger| && g != f
      ensures hi == BelowNode(old(hi), f, v) && High(dom, loose, g) && g < |hi.heads| && hi.heads[g] == -1
    {
      hide HighTier;
      ghost var t := hi;
      TierSizes(t, rec.freq, rec.hpos, dom, sqrtu, loose, -1);
      BelowOk(t, rec.freq, rec.hpos, dom, sqrtu, loose, f, v);
      g := hi.freeff;
      var down := hi.fsmaller[f];
      hi := hi.(freeff := hi.flarger[g], ffreq := hi.ffreq[g := v], fsmaller := hi.fsmaller[g := down][f := g]);
      if down != -1 {
        hi := hi.(flarger := hi.flarger[down := g]);
      } else {
        hi := hi.(smallest := g);
      }
      hi := hi.(flarger := hi.flarger[g := f]);
      hi := hi.(freeNodes := hi.freeNodes[..|hi.freeNodes| - 1], owner := hi.owner[g := 0]);
      assert hi == BelowNode(t, f, v);
    }

    /** A new node of frequency `v` in an empty node list. */
    method NodeFirst(v: int, ghost dom: set<int>, ghost loose: int) returns (g: int)
      requires High(dom, loose, -1) && loose != -1 && hi.smallest == -1 && sqrtu <= v
      modifies this`hi
      ensures old(hi.freeNodes != [] && |hi.owner| == |hi.ffreq| == |hi.flarger| == |hi.fsmaller|)
      ensures 0 <= g == old(hi.freeff) < |old(hi).flarger|
      ensures hi == FirstNode(old(hi), v) && High(dom, loose, g) && g < |hi.heads| && hi.heads[g] == -1
    {
      hide HighTier;
      ghost var t := hi;
      TierSizes(t, rec.freq, rec.hpos, dom, sqrtu, loose, -1);
      FirstOk(t, rec.freq, rec.hpos, dom, sqrtu, loose, v);
      g := hi.freeff;
      hi := hi.(freeff := hi.flarger[g], ffreq := hi.ffreq[g := v]);
      hi := hi.(fsmaller := hi.fsmaller[g := -1], flarger := hi.flarger[g := hi.smallest], smallest := g);
      if hi.largest == -1 {
        hi := hi.(largest := g);
      }
      hi := hi.(freeNodes := hi.freeNodes[..|hi.freeNodes| - 1], owner := hi.owner[g := 0]);
      assert hi == FirstNode(t, v);
    }

    /** One more occurrence of a record that is in the high tier already. */
    method IncHigh(id: int, ghost dom: set<int>)
      requires High(dom, -1, -1) && id in dom && 0 <= id < |rec.freq| && rec.freq[id] >= sqrtu
      modifies this`hi, rec`freq
      ensures High(dom, -1, -1) && rec.freq == old(rec.freq)[id := old(rec.freq)[id] + 1]
    {
      hide HighTier;
      IdFacts(hi, rec.freq, rec.hpos, dom, sqrtu, -1, -1, id);
      TierSizes(hi, rec.freq, rec.hpos, dom, sqrtu, -1, -1);
      var x, v := rec.hpos[id], rec.freq[id] + 1;
      CellFacts(hi, rec.freq, rec.hpos, dom, sqrtu, x);
      var f := hi.cfnode[x];
      LooseFacts(hi, rec.freq, rec.hpos, dom, sqrtu, -1, -1, f);
      if hi.cprev[x] == -1 && hi.cnext[x] == -1 && (hi.flarger[f] == -1 || hi.ffreq[hi.flarger[f]] != v) {
        RerankOk(hi, rec.freq, rec.hpos, dom, sqrtu, x, v);
        hi := hi.(ffreq := hi.ffreq[f := v]);
        rec.freq := rec.freq[id := v];
      } else {
        IncMove(id, x, f, v, dom);
      }
    }

    /** The long way: the record's cell leaves node `f` for the node of frequency `v`, created if need be. */
    method IncMove(id: int, x: int, f: int, v: int, ghost dom: set<int>)
      requires High(dom, -1, -1) && id in dom && 0 <= id < |rec.freq| == |rec.hpos| && v == rec.freq[id] + 1 > sqrtu
      requires 0 <= x < |hi.home| == |hi.cid| == |hi.cfnode| == sqrtu && hi.home[x] >= 0
      requires hi.cid[x] == id && rec.hpos[id] == x && hi.cfnode[x] == f
      requires |hi.cprev| == |hi.cnext| == |hi.flarger| == |hi.ffreq| == |hi.felems| == sqrtu && 0 <= f < sqrtu
      requires -1 <= hi.flarger[f] < sqrtu && hi.ffreq[f] == v - 1
      requires !(hi.cprev[x] == -1 && hi.cnext[x] == -1 && (hi.flarger[f] == -1 || hi.ffreq[hi.flarger[f]] != v))
      modifies this`hi, rec`freq
      ensures High(dom, -1, -1) && rec.freq == old(rec.freq)[id := v]
    {
      hide HighTier;
      CellFacts(hi, rec.freq, rec.hpos, dom, sqrtu, x);
      LooseFacts(hi, rec.freq, rec.hpos, dom, sqrtu, -1, -1, f);
      Detach(x, dom);
      HighFrame(hi, rec.freq, rec.hpos, dom - {id}, sqrtu, x, f, id, v, x);
      rec.freq := rec.freq[id := v];
      assert rec.hpos[id := x] == rec.hpos;
      assert dom - {id} + {id} == dom;
      if hi.flarger[f] != -1 && hi.ffreq[hi.flarger[f]] == v {
        Attach(x, hi.flarger[f], false, id, dom - {id}, f);
        if hi.felems[f] == -1 {
          DropNode(f, dom, -1);
        } else {
          SettledOk(hi, rec.freq, rec.hpos, dom, sqrtu, -1, f);
        }
      } else {
        SettledOk(hi, rec.freq, rec.hpos, dom - {id}, sqrtu, x, f);
        var g := NodeAbove(f, v, dom - {id}, x);
        Attach(x, g, true, id, dom - {id}, g);
      }
    }

    /** Takes a record out of its low-tier array: the last entry fills its place. */
    method PullLow(id: int, ghost dom: set<int>)
      requires Valid(dom, 0) && id in dom && rec.freq[id] < sqrtu
      modifies this`infreq, rec`hpos
      ensures Valid(dom - {id}, 0) && |rec.hpos| == old(|rec.hpos|)
      ensures HighIds(rec.freq, dom - {id}, sqrtu) == HighIds(rec.freq, dom, sqrtu)
    {
      hide HighTier;
      var f, k := rec.freq[id], rec.hpos[id];
      LowRemoved(infreq, rec.freq, rec.hpos, dom, sqrtu, id);
      var a := infreq[f];
      var last := a[|a| - 1];
      LastIsLow(infreq, rec.freq, rec.hpos, dom, sqrtu, f);
      HighShrink(hi, rec.freq, rec.hpos, dom, sqrtu, id);
      HighRehang(hi, rec.freq, rec.hpos, dom - {id}, sqrtu, last, k);
      hide LowTier;
      rec.hpos := rec.hpos[last := k];
      infreq := infreq[f := a[k := last][..|a| - 1]];
    }

    /** Appends a record to the low-tier array of its frequency. */
    method PushLow(id: int, f: int, ghost dom: set<int>)
      requires Valid(dom, 0) && 0 <= id < |rec.freq| && id !in dom && 1 <= f < sqrtu
      modifies this`infreq, rec`freq, rec`hpos
      ensures Valid(dom + {id}, 0) && rec.freq == old(rec.freq)[id := f] && |rec.hpos| == old(|rec.hpos|)
    {
      hide HighTier;
      LowFrame(infreq, rec.freq, rec.hpos, dom, sqrtu, id, f);
      ghost var freq' := rec.freq[id := f];
      LowAdded(infreq, freq', rec.hpos, dom, sqrtu, id);
      assert |infreq| == sqrtu && |rec.freq| == |rec.hpos|;
      HighFrame(hi, rec.freq, rec.hpos, dom, sqrtu, -1, -1, id, f, |infreq[f]|);
      HighGrow(hi, freq', rec.hpos[id := |infreq[f]|], dom, sqrtu, id);
      hide LowTier;
      rec.freq := rec.freq[id := f];
      rec.hpos := rec.hpos[id := |infreq[f]|];
      infreq := infreq[f := infreq[f] + [id]];
    }

    /** A record whose frequency has just reached `sqrtu` gets a cell. */
    method EnterHigh(id: int, ghost dom: set<int>)
      requires Valid(dom, 0) && 0 <= id < |rec.freq| && id !in dom && |HighIds(rec.freq, dom, sqrtu)| < sqrtu
      modifies this`hi, rec`freq, rec`hpos
      ensures Valid(dom + {id}, 0) && rec.freq == old(rec.freq)[id := sqrtu] && |rec.hpos| == old(|rec.hpos|)
    {
      hide HighTier;
      TierSizes(hi, rec.freq, rec.hpos, dom, sqrtu, -1, -1);
      AllocOk(hi, rec.freq, rec.hpos, dom, sqrtu);
      var x := hi.freef;
      LowEnter(infreq, rec.freq, rec.hpos, dom, sqrtu, id, x);
      hide LowTier;
      hi := hi.(freef := hi.cnext[x], freeCells := hi.freeCells[..|hi.freeCells| - 1]);
      HighFrame(hi, rec.freq, rec.hpos, dom, sqrtu, x, -1, id, sqrtu, x);
      rec.freq, rec.hpos := rec.freq[id := sqrtu], rec.hpos[id := x];
      CidFrame(hi, rec.freq, rec.hpos, dom, sqrtu, x, id);
      hi := hi.(cid := hi.cid[x := id]);
      EnterNode(id, x, dom);
    }

    method EnterNode(id: int, x: int, ghost dom: set<int>)
      requires High(dom, x, -1) && 0 <= x < |hi.cid| && hi.cid[x] == id && 0 <= id < |rec.freq| == |rec.hpos|
      requires id !in dom
      requires rec.freq[id] == sqrtu && rec.hpos[id] == x
      modifies this`hi
      ensures High(dom + {id}, -1, -1)
    {
      hide HighTier;
      TierSizes(hi, rec.freq, rec.hpos, dom, sqrtu, x, -1);
      if hi.smallest != -1 {
        SmallestFacts(hi, rec.freq, rec.hpos, dom, sqrtu, x);
      }
      if hi.smallest != -1 && hi.ffreq[hi.smallest] == sqrtu {
        Attach(x, hi.smallest, false, id, dom, -1);
      } else {
        var g;
        if hi.smallest == -1 {
          g := NodeFirst(sqrtu, dom, x);
        } else {
          g := NodeBelow(hi.smallest, sqrtu, dom, x);
        }
        Attach(x, g, true, id, dom, g);
      }
    }

    /** One more occurrence of record `id`. */
    method IncFreq(id: int, ghost dom: set<int>)
      requires Valid(dom, 0) && id in dom
      requires rec.freq[id] + 1 == sqrtu ==> |HighIds(rec.freq, dom, sqrtu)| < sqrtu
      modifies this`infreq, this`hi, rec`freq, rec`hpos
      ensures Valid(dom, 0) && rec.freq == old(rec.freq)[id := old(rec.freq)[id] + 1] && |rec.hpos| == old(|rec.hpos|)
    {
      hide HighTier;
      var f := rec.freq[id];
      if f >= sqrtu {
        TierSizes(hi, rec.freq, rec.hpos, dom, sqrtu, -1, -1);
        LowRaised(infreq, rec.freq, rec.hpos, dom, sqrtu, id, f + 1);
        assert dom + {id} == dom;
        hide LowTier;
        IncHigh(id, dom);
      } else {
        assert 1 <= f && 0 <= id < |rec.freq|;
        hide LowTier;
        PullLow(id, dom);
        if f + 1 < sqrtu {
          PushLow(id, f + 1, dom - {id});
        } else {
          EnterHigh(id, dom - {id});
        }
        assert dom - {id} + {id} == dom;
      }
    }

    /** The record stays in the high tier with one occurrence less. */
    method DecHigh(id: int, ghost dom: set<int>)
      requires High(dom, -1, -1) && id in dom && 0 <= id < |rec.freq| && rec.freq[id] > sqrtu
      modifies this`hi, rec`freq
      ensures High(dom, -1, -1) && rec.freq == old(rec.freq)[id := old(rec.freq)[id] - 1]
    {
      hide HighTier;
      IdFacts(hi, rec.freq, rec.hpos, dom, sqrtu, -1, -1, id);
      TierSizes(hi, rec.freq, rec.hpos, dom, sqrtu, -1, -1);
      var x, v := rec.hpos[id], rec.freq[id] - 1;
      CellFacts(hi, rec.freq, rec.hpos, dom, sqrtu, x);
      var f := hi.cfnode[x];
      LooseFacts(hi, rec.freq, rec.hpos, dom, sqrtu, -1, -1, f);
      if hi.cprev[x] == -1 && hi.cnext[x] == -1 && (hi.fsmaller[f] == -1 || hi.ffreq[hi.fsmaller[f]] != v) {
        RerankOk(hi, rec.freq, rec.hpos, dom, sqrtu, x, v);
        hi := hi.(ffreq := hi.ffreq[f := v]);
        rec.freq := rec.freq[id := v];
      } else {
        DecMove(id, x, f, v, dom);
      }
    }

    /** The long way: the record's cell leaves node `f` for the node of frequency `v`, created if need be. */
    method DecMove(id: int, x: int, f: int, v: int, ghost dom: set<int>)
      requires High(dom, -1, -1) && id in dom && 0 <= id < |rec.freq| == |rec.hpos| && v == rec.freq[id] - 1 >= sqrtu
      requires 0 <= x < |hi.home| == |hi.cid| == |hi.cfnode| == sqrtu && hi.home[x] >= 0
      requires hi.cid[x] == id && rec.hpos[id] == x && hi.cfnode[x] == f
      requires |hi.cprev| == |hi.cnext| == |hi.fsmaller| == |hi.ffreq| == |hi.felems| == sqrtu && 0 <= f < sqrtu
      requires -1 <= hi.fsmaller[f] < sqrtu && hi.ffreq[f] == v + 1
      requires !(hi.cprev[x] == -1 && hi.cnext[x] == -1 && (hi.fsmaller[f] == -1 || hi.ffreq[hi.fsmaller[f]] != v))
      modifies this`hi, rec`freq
      ensures High(dom, -1, -1) && rec.freq == old(rec.freq)[id := v]
    {
      hide HighTier;
      CellFacts(hi, rec.freq, rec.hpos, dom, sqrtu, x);
      LooseFacts(hi, rec.freq, rec.hpos, dom, sqrtu, -1, -1, f);
      Detach(x, dom);
      HighFrame(hi, rec.freq, rec.hpos, dom - {id}, sqrtu, x, f, id, v, x);
      rec.freq := rec.freq[id := v];
      assert rec.hpos[id := x] == rec.hpos;
      assert dom - {id} + {id} == dom;
      if hi.fsmaller[f] != -1 && hi.ffreq[hi.fsmaller[f]] == v {
        Attach(x, hi.fsmaller[f], false, id, dom - {id}, f);
        if hi.felems[f] == -1 {
          DropNode(f, dom, -1);
        } else {
          SettledOk(hi, rec.freq, rec.hpos, dom, sqrtu, -1, f);
        }
      } else {
        SettledOk(hi, rec.freq, rec.hpos, dom - {id}, sqrtu, x, f);
        var g := NodeBelow(f, v, dom - {id}, x);
        Attach(x, g, true, id, dom - {id}, g);
      }
    }

    /** Takes a record and its cell out of the high tier. */
    method LeaveHigh(x: int, ghost dom: set<int>)
      requires Valid(dom, 0) && 0 <= x < |hi.home| == |hi.cid| && hi.home[x] >= 0
      modifies this`hi
      ensures old(hi.cid)[x] in dom && Valid(dom - {old(hi.cid)[x]}, 0)
    {
      hide HighTier;
      TierSizes(hi, rec.freq, rec.hpos, dom, sqrtu, -1, -1);
      CellFacts(hi, rec.freq, rec.hpos, dom, sqrtu, x);
      var f := hi.cfnode[x];
      ghost var id := hi.cid[x];
      LowShrink(infreq, rec.freq, rec.hpos, dom, sqrtu, id);
      hide LowTier;
      Detach(x, dom);
      if hi.felems[f] == -1 {
        DropNode(f, dom - {id}, x);
      } else {
        SettledOk(hi, rec.freq, rec.hpos, dom - {id}, sqrtu, x, f);
      }
      FreeOk(hi, rec.freq, rec.hpos, dom - {id}, sqrtu, x, -1);
      hi := hi.(cnext := hi.cnext[x := hi.freef], freef := x, freeCells := hi.freeCells + [x]);
    }

    /** One occurrence less of record `id`; at frequency 0 it leaves the heap, which `gone` reports. */
    method DecFreq(id: int, ghost dom: set<int>) returns (gone: bool)
      requires Valid(dom, 0) && id in dom
      modifies this`infreq, this`hi, rec`freq, rec`hpos
      ensures gone <==> old(rec.freq)[id] == 1
      ensures Valid(if gone then dom - {id} else dom, 0)
      ensures rec.freq == old(rec.freq)[id := old(rec.freq)[id] - 1] && |rec.hpos| == old(|rec.hpos|)
    {
      hide HighTier;
      var f := rec.freq[id];
      gone := false;
      TierSizes(hi, rec.freq, rec.hpos, dom, sqrtu, -1, -1);
      assert f >= 1 && 0 <= id < |rec.freq|;
      if f > sqrtu {
        LowRaised(infreq, rec.freq, rec.hpos, dom, sqrtu, id, f - 1);
        assert dom + {id} == dom;
        hide LowTier;
        DecHigh(id, dom);
      } else {
        if f < sqrtu {
          PullLow(id, dom);
        } else {
          IdFacts(hi, rec.freq, rec.hpos, dom, sqrtu, -1, -1, id);
          LeaveHigh(rec.hpos[id], dom);
        }
        if f > 1 {
          PushLow(id, f - 1, dom - {id});
          assert dom - {id} + {id} == dom;
        } else {
          gone := true;
          Vanish(id, dom - {id});
        }
      }
    }

    /** The frequency of a record outside the heap becomes 0. */
    method Vanish(id: int, ghost dom: set<int>)
      requires Valid(dom, 0) && id !in dom && 0 <= id < |rec.freq|
      modifies rec`freq
      ensures Valid(dom, 0) && rec.freq == old(rec.freq)[id := 0]
    {
      hide HighTier;
      LowFrame(infreq, rec.freq, rec.hpos, dom, sqrtu, id, 0);
      TierSizes(hi, rec.freq, rec.hpos, dom, sqrtu, -1, -1);
      HighFrame(hi, rec.freq, rec.hpos, dom, sqrtu, -1, -1, id, 0, rec.hpos[id]);
      assert rec.hpos[id := rec.hpos[id]] == rec.hpos;
      rec.freq := rec.freq[id := 0];
    }

    /** A new record enters with frequency 1. */
    method Insert(id: int, ghost dom: set<int>)
      requires Valid(dom, 0) && 0 <= id < |rec.freq| && id !in dom
      modifies this`infreq, rec`freq, rec`hpos
      ensures Valid(dom + {id}, 0) && rec.freq == old(rec.freq)[id := 1] && |rec.hpos| == old(|rec.hpos|)
    {
      assert sqrtu >= 2;
      PushLow(id, 1, dom);
    }

    /**
     Removes a record of maximum frequency; -1 when the heap is empty.  `max` only ever decreases, so
     this relies on no record having risen above it since the last extraction.
     */
    method ExtractMax(ghost dom: set<int>) returns (id: int)
      requires Valid(dom, 0)
      requires max < sqrtu ==> forall i :: i in dom ==> rec.freq[i] <= max
      modifies this`max, this`infreq, this`hi
      ensures id == -1 <==> dom == {}
      ensures id == -1 ==> Valid({}, 0)
      ensures id != -1 ==> id in dom && Valid(dom - {id}, 0) && forall i :: i in dom ==> rec.freq[i] <= rec.freq[id]
      ensures id != -1 ==> max == if rec.freq[id] < sqrtu then rec.freq[id] else sqrtu
    {
      hide HighTier;
      TierSizes(hi, rec.freq, rec.hpos, dom, sqrtu, -1, -1);
      LargestIsMax(hi, rec.freq, rec.hpos, dom, sqrtu);
      LowBounds(infreq, rec.freq, rec.hpos, dom, sqrtu);
      hide LowTier;
      if max == sqrtu && hi.largest == -1 {
        max := max - 1;
      }
      if max < sqrtu {
        while max != 0 && |infreq[max]| == 0
          invariant 0 <= max < sqrtu && Valid(dom, 0) && infreq == old(infreq) && hi == old(hi)
          invariant forall i :: i in dom ==> rec.freq[i] <= max
          decreases max
        {
          NoneAt(infreq, rec.freq, rec.hpos, dom, sqrtu, max);
          max := max - 1;
        }
        if max == 0 {
          assert forall i :: i !in dom;
          return -1;
        }
        id := infreq[max][|infreq[max]| - 1];
        TakeLast(id, dom);
      } else {
        var x := hi.felems[hi.largest];
        LooseFacts(hi, rec.freq, rec.hpos, dom, sqrtu, -1, -1, hi.largest);
        CellFacts(hi, rec.freq, rec.hpos, dom, sqrtu, x);
        id := hi.cid[x];
        LeaveHigh(x, dom);
      }
    }

    /** Drops the last entry of the array of the current maximum. */
    method TakeLast(id: int, ghost dom: set<int>)
      requires Valid(dom, 0) && 1 <= max < sqrtu && infreq[max] != [] && id == infreq[max][|infreq[max]| - 1]
      modifies this`infreq
      ensures id in dom && rec.freq[id] == max && Valid(dom - {id}, 0)
    {
      hide HighTier;
      LastIsLow(infreq, rec.freq, rec.hpos, dom, sqrtu, max);
      LowRemoved(infreq, rec.freq, rec.hpos, dom, sqrtu, id);
      HighShrink(hi, rec.freq, rec.hpos, dom, sqrtu, id);
      var a := infreq[max];
      assert rec.hpos[id] == |a| - 1;
      assert Pulled(a, |a| - 1) == a[..|a| - 1];
      assert rec.hpos[id := rec.hpos[id]] == rec.hpos;
      infreq := infreq[max := a[..|a| - 1]];
    }

    /** Points the heap entry of a moved record at its new id. */
    method Repos(id: int)
      requires 0 <= id < |rec.freq| == |rec.hpos| && 0 <= rec.hpos[id]
      requires if rec.freq[id] < sqrtu then 0 <= rec.freq[id] < |infreq| && rec.hpos[id] < |infreq[rec.freq[id]]|
               else rec.hpos[id] < |hi.cid|
      modifies this`infreq, this`hi
      ensures infreq == (if rec.freq[id] < sqrtu then
                           old(infreq)[rec.freq[id] := old(infreq)[rec.freq[id]][rec.hpos[id] := id]]
                         else old(infreq))
      ensures hi == if rec.freq[id] < sqrtu then old(hi) else old(hi).(cid := old(hi).cid[rec.hpos[id] := id])
    {
      if rec.freq[id] < sqrtu {
        infreq := infreq[rec.freq[id] := infreq[rec.freq[id]][rec.hpos[id] := id]];
      } else {
        hi := hi.(cid := hi.cid[rec.hpos[id] := id]);
      }
    }

    /** Empties the array of frequency 1, all of whose records have been purged. */
    method ClearOnes(ghost dom: set<int>)
      requires 2 <= |infreq| && Valid(dom, |infreq[1]|)
      modifies this`infreq
      ensures Valid(dom, 0) && forall id :: id in dom ==> 0 <= id < |rec.freq| && rec.freq[id] >= 2
    {
      hide HighTier;
      LowEmptied(infreq, rec.freq, rec.hpos, dom, sqrtu);
      infreq := infreq[1 := []];
    }
  }
}
