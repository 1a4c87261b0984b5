/**
 The linear-probing hash table from pairs to record ids, with deletion marks.

 A cell holds -1 when it was never used, -2 after a deletion, and a record id otherwise.  A probe
 stops only at its key or at a never-used cell, and cells never become unused again except by a
 resize, so a lookup of an absent key in a table without never-used cells goes round for ever.
 `Search` reports that case as `None`; its contract says exactly when it happens.
 */
module HashTable {
  import opened RecordTable
  import opened Cards

  datatype Option<+T> = None | Some(value: T)

  const NEVER := -1
  const DELETED := -2

  const LPRIME: int := 767865341467865341

  /** First cell probed for `p` in a table of `n` cells, with the 64-bit wrap-around of the product. */
  function Home(p: Pair, n: int): (k: int)
    requires 0 < n
    ensures 0 <= k < n
  {
    (((LPRIME * (p.left * WORD + p.right)) % (WORD * WORD)) / WORD) % n
  }

  /** The cell `j` steps after `h`, going round a table of `n` cells. */
  function Step(h: int, j: int, n: int): (k: int)
    requires 0 <= h < n && 0 <= j < n
    ensures 0 <= k < n
  {
    if h + j < n then h + j else h + j - n
  }

  /** How many steps lead from `h` to `k`. */
  function Dist(h: int, k: int, n: int): (j: int)
    requires 0 <= h < n && 0 <= k < n
    ensures 0 <= j < n && Step(h, j, n) == k
  {
    if h <= k then k - h else k - h + n
  }

  /** Largest power of two that is at most `m`: what is left of `m` once its lower bits are cleared. */
  function TopPower(m: int): (r: int)
    requires 1 <= m
    ensures 1 <= r <= m < 2 * r
  {
    if m == 1 then 1 else 2 * TopPower(m / 2)
  }

  ghost predicate IsPower(m: int) {
    m >= 1 && TopPower(m) == m
  }

  /** The power of two in [p, 2p) is p itself. */
  lemma {:induction false} TopPowerUnique(m: int, p: int)
    requires IsPower(p) && p <= m < 2 * p
    ensures TopPower(m) == p
  {
    if m > 1 {
      assert p == 2 * TopPower(p / 2);
      TopPowerUnique(m / 2, p / 2);
    }
  }

  lemma {:induction false} TopIsPower(m: int)
    requires 1 <= m
    ensures IsPower(TopPower(m)) && IsPower(2 * TopPower(m))
  {
    if m > 1 {
      TopIsPower(m / 2);
    }
  }

  lemma PowerEven(m: int)
    requires m >= 2 && IsPower(m)
    ensures m % 2 == 0
  {
    assert m == 2 * TopPower(m / 2);
  }

  lemma TopOfInitial()
    ensures TopPower(256 * 256) == 65536
  {
  }

  lemma Doubled(m: int)
    requires m >= 1 && IsPower(m + 1)
    ensures 2 * TopPower(2 * m + 1) - 1 == 2 * m + 1 && IsPower(2 * m + 2)
  {
    TopPowerUnique(2 * m + 1, m + 1);
    TopIsPower(2 * m + 1);
  }

  ghost function Spare(table: seq<int>): (s: set<int>) {
    set k | 0 <= k < |table| && table[k] == NEVER
  }

  /** No record was deleted since the table was last rebuilt. */
  ghost predicate Unmarked(table: seq<int>) {
    forall k :: 0 <= k < |table| ==> table[k] != DELETED
  }

  function EmptyTable(n: int): (t: seq<int>)
    requires 0 <= n
    ensures |t| == n
  {
    seq(n, _ => NEVER)
  }

  lemma EmptyHolds(n: int, pair: seq<Pair>, kpos: seq<int>)
    requires 0 <= n && |pair| == |kpos|
    ensures Holds(EmptyTable(n), pair, kpos, {}) && |Spare(EmptyTable(n))| == n && Unmarked(EmptyTable(n))
  {
    assert Spare(EmptyTable(n)) == Below(n);
  }

  lemma SpareBound(table: seq<int>)
    ensures |Spare(table)| <= |table|
  {
    SubsetCard(Spare(table), Below(|table|));
  }

  /** Record `id` is found by probing: it sits at `kpos`, with no never-used cell on the way there. */
  ghost predicate Filed(table: seq<int>, p: Pair, k: int, id: int) {
    && 0 <= k < |table| && table[k] == id
    && forall j {:trigger Step(Home(p, |table|), j, |table|)} :: 0 <= j < Dist(Home(p, |table|), k, |table|) ==>
         table[Step(Home(p, |table|), j, |table|)] != NEVER
  }

  /** The table holds exactly the records `dom`, each under its own pair. */
  ghost predicate Holds(table: seq<int>, pair: seq<Pair>, kpos: seq<int>, dom: set<int>) {
    && |kpos| == |pair|
    && (forall id :: id in dom ==> 0 <= id < |pair| && Filed(table, pair[id], kpos[id], id))
    && (forall k :: 0 <= k < |table| ==>
          table[k] == NEVER || table[k] == DELETED || (table[k] in dom && 0 <= table[k] < |kpos|
                                                       && kpos[table[k]] == k))
    && (forall i, j :: i in dom && j in dom && i != j ==> pair[i] != pair[j])
  }

  lemma HasRoom(table: seq<int>, pair: seq<Pair>, kpos: seq<int>, dom: set<int>)
    requires Holds(table, pair, kpos, dom) && |dom| < |table|
    ensures exists k :: 0 <= k < |table| && table[k] < 0
  {
    if forall k :: 0 <= k < |table| ==> table[k] >= 0 {
      var m := map k | 0 <= k < |table| :: table[k];
      assert m.Keys == Below(|table|);
      InjectionCard(m, dom);
    }
  }

  /** While nothing was deleted, the cells that hold no record are never-used. */
  lemma HasSpare(table: seq<int>, pair: seq<Pair>, kpos: seq<int>, dom: set<int>)
    requires Holds(table, pair, kpos, dom) && Unmarked(table)
    ensures |Spare(table)| >= |table| - |dom|
  {
    var m := map k | 0 <= k < |table| && table[k] >= 0 :: table[k];
    InjectionCard(m, dom);
    assert Below(|table|) == Spare(table) + m.Keys;
  }

  /** Writing `id` into the first non-live cell of its probe sequence files it. */
  lemma Placed(table: seq<int>, pair: seq<Pair>, kpos: seq<int>, dom: set<int>, id: int, k: int)
    requires Holds(table, pair, kpos, dom)
    requires 0 <= id < |pair| && id !in dom && forall i :: i in dom ==> pair[i] != pair[id]
    requires 0 <= k < |table| && table[k] < 0
    requires forall j :: 0 <= j < Dist(Home(pair[id], |table|), k, |table|) ==>
               table[Step(Home(pair[id], |table|), j, |table|)] >= 0
    ensures Holds(table[k := id], pair, kpos[id := k], dom + {id})
    ensures |Spare(table[k := id])| >= |Spare(table)| - 1
  {
    var table', kpos' := table[k := id], kpos[id := k];
    forall i | i in dom + {id} ensures Filed(table', pair[i], kpos'[i], i) {
    }
    SubsetCard(Spare(table) - {k}, Spare(table'));
  }

  lemma Marked(table: seq<int>, pair: seq<Pair>, kpos: seq<int>, dom: set<int>, id: int)
    requires Holds(table, pair, kpos, dom) && id in dom
    ensures Holds(table[kpos[id] := DELETED], pair, kpos, dom - {id})
    ensures |Spare(table[kpos[id] := DELETED])| == |Spare(table)|
  {
    var table' := table[kpos[id] := DELETED];
    forall i | i in dom - {id} ensures Filed(table', pair[i], kpos[i], i) {
    }
    assert Spare(table') == Spare(table);
  }

  /** Copying record `last` over the dead record `id` and pointing its cell at `id`. */
  lemma Moved(table: seq<int>, pair: seq<Pair>, kpos: seq<int>, dom: set<int>, id: int, last: int)
    requires Holds(table, pair, kpos, dom) && last in dom && id !in dom && 0 <= id < |pair|
    ensures Holds(table[kpos[last] := id], pair[id := pair[last]], kpos[id := kpos[last]], dom - {last} + {id})
    ensures |Spare(table[kpos[last] := id])| == |Spare(table)|
  {
    var table', pair', kpos' := table[kpos[last] := id], pair[id := pair[last]], kpos[id := kpos[last]];
    forall i | i in dom - {last} + {id} ensures Filed(table', pair'[i], kpos'[i], i) {
      assert i != id ==> Filed(table, pair[i], kpos[i], i);
      assert Filed(table, pair[last], kpos[last], last);
    }
    assert Spare(table') == Spare(table);
  }

  /** Rows added beyond the records in use do not matter. */
  lemma HoldsExtended(table: seq<int>, pair: seq<Pair>, kpos: seq<int>, dom: set<int>, p: Pair, k: int)
    requires Holds(table, pair, kpos, dom)
    ensures Holds(table, pair + [p], kpos + [k], dom)
  {
    hide Filed;
  }

  /** Rows beyond the records in use do not matter. */
  lemma HoldsTruncated(table: seq<int>, pair: seq<Pair>, kpos: seq<int>, dom: set<int>, n: int)
    requires Holds(table, pair, kpos, dom) && 0 <= n <= |pair| && forall id :: id in dom ==> id < n
    ensures Holds(table, pair[..n], kpos[..n], dom)
  {
    hide Filed;
  }

  /** The records met in a table or in a prefix of it. */
  ghost function Listed(table: seq<int>): (s: set<int>) {
    set k | 0 <= k < |table| && table[k] >= 0 :: table[k]
  }

  lemma ListedStep(table: seq<int>, i: int)
    requires 0 <= i < |table|
    ensures Listed(table[..i + 1]) == Listed(table[..i]) + if table[i] >= 0 then {table[i]} else {}
    ensures Listed(table[..i]) <= Listed(table)
  {
    assert table[..i + 1] == table[..i] + [table[i]];
  }

  lemma Unlisted(table: seq<int>, pair: seq<Pair>, kpos: seq<int>, dom: set<int>)
    requires Holds(table, pair, kpos, dom)
    ensures Listed(table) == dom
    ensures forall i, j :: 0 <= i < j < |table| && table[i] >= 0 ==> table[i] != table[j]
    ensures forall i :: 0 <= i < |table| && table[i] >= 0 ==> table[i] !in Listed(table[..i])
  {
    forall x | x in dom ensures x in Listed(table) {
      assert Filed(table, pair[x], kpos[x], x);
      assert table[kpos[x]] == x;
    }
  }

  class PairHash {
    var table: seq<int>
    var maxpos: int
    var used: int
    const rec: Records

    ghost predicate Valid(dom: set<int>)
      reads this, rec
    {
      && |table| == maxpos + 1 && maxpos >= 1 && IsPower(maxpos + 1)
      && used == |dom| && 2 * used <= maxpos + 2
      && Holds(table, rec.pair, rec.kpos, dom)
    }

    constructor (m: int, rec: Records)
      requires m >= 1 && |rec.kpos| == |rec.pair|
      ensures this.rec == rec && Valid({})
      ensures maxpos == 2 * TopPower(m) - 1
      ensures |Spare(table)| == maxpos + 1 && Unmarked(table)
    {
      this.rec := rec;
      maxpos := 2 * TopPower(m) - 1;
      used := 0;
      table := EmptyTable(2 * TopPower(m));
      new;
      TopIsPower(m);
      EmptyHolds(maxpos + 1, rec.pair, rec.kpos);
    }

    /** While nothing was deleted, at least half of the cells are never-used, and at least as many as hold records. */
    lemma HalfSpare(dom: set<int>)
      requires Valid(dom) && Unmarked(table)
      ensures 2 * |Spare(table)| >= |table| && |Spare(table)| >= |dom|
    {
      hide Holds, Spare, Unmarked, IsPower, TopPower;
      HasSpare(table, rec.pair, rec.kpos, dom);
      PowerEven(maxpos + 1);
    }

    /**
     The id filed under `p`, or -1.  The source's probe has no bound of its own: `None` stands for
     the probe that has seen every cell and starts over, which happens exactly when `p` is absent
     and no never-used cell is left.
     */
    method Search(p: Pair, ghost dom: set<int>) returns (r: Option<int>)
      requires Valid(dom)
      ensures r == None <==> Spare(table) == {} && forall i :: i in dom ==> rec.pair[i] != p
      ensures r.Some? && r.value != -1 ==> r.value in dom && rec.pair[r.value] == p
      ensures r == Some(-1) ==> forall i :: i in dom ==> rec.pair[i] != p
    {
      var h := Home(p, maxpos + 1);
      var k, probes := h, 0;
      while probes <= maxpos && table[k] != NEVER
        invariant 0 <= probes <= maxpos + 1
        invariant probes <= maxpos ==> k == Step(h, probes, maxpos + 1)
        invariant forall j {:trigger Step(h, j, maxpos + 1)} :: 0 <= j < probes ==>
                    var t := table[Step(h, j, maxpos + 1)]; t != NEVER && (t >= 0 ==> rec.pair[t] != p)
      {
        if table[k] >= 0 && rec.pair[table[k]] == p {
          return Some(table[k]);
        }
        k := if k == maxpos then 0 else k + 1;
        probes := probes + 1;
      }
      Missed(table, rec.pair, rec.kpos, dom, p, probes);
      if probes > maxpos {
        return None;
      }
      assert k in Spare(table);
      return Some(-1);
    }

    /** First cell of the probe sequence of `p` that holds no record. */
    static method FindSlot(tab: seq<int>, p: Pair) returns (k: int)
      requires exists i :: 0 <= i < |tab| && tab[i] < 0
      ensures 0 <= k < |tab| && tab[k] < 0
      ensures forall j :: 0 <= j < Dist(Home(p, |tab|), k, |tab|) ==> tab[Step(Home(p, |tab|), j, |tab|)] >= 0
    {
      var h := Home(p, |tab|);
      k := h;
      ghost var probes := 0;
      ghost var i :| 0 <= i < |tab| && tab[i] < 0;
      while tab[k] >= 0
        invariant 0 <= probes <= Dist(h, i, |tab|) && k == Step(h, probes, |tab|)
        invariant forall j {:trigger Step(h, j, |tab|)} :: 0 <= j < probes ==> tab[Step(h, j, |tab|)] >= 0
        decreases Dist(h, i, |tab|) - probes
      {
        assert probes != Dist(h, i, |tab|);
        k := if k == |tab| - 1 then 0 else k + 1;
        probes := probes + 1;
      }
    }

    /** Files record `id`, which must not be there yet, doubling the table first when it is half full. */
    method Insert(id: int, ghost dom: set<int>)
      requires Valid(dom)
      requires 0 <= id < |rec.pair| && id !in dom && forall i :: i in dom ==> rec.pair[i] != rec.pair[id]
      modifies this`table, this`maxpos, this`used, rec`kpos
      ensures Valid(dom + {id}) && |rec.kpos| == |rec.pair|
      ensures |Spare(table)| >= old(|Spare(table)|) - 1 && (old(Unmarked(table)) ==> Unmarked(table))
      ensures maxpos == if 2 * |dom| > old(maxpos) then 2 * old(maxpos) + 1 else old(maxpos)
    {
      if 2 * used > maxpos {
        Resize(dom);
      }
      used := used + 1;
      HasRoom(table, rec.pair, rec.kpos, dom);
      var k := FindSlot(table, rec.pair[id]);
      Placed(table, rec.pair, rec.kpos, dom, id, k);
      table := table[k := id];
      rec.kpos := rec.kpos[id := k];
    }

    /** Files `id` in the table under construction. */
    method Refile(tab: seq<int>, id: int, ghost done: set<int>) returns (tab': seq<int>)
      requires Holds(tab, rec.pair, rec.kpos, done) && |done| < |tab|
      requires 0 <= id < |rec.pair| && id !in done && forall i :: i in done ==> rec.pair[i] != rec.pair[id]
      modifies rec`kpos
      ensures |tab'| == |tab| && Holds(tab', rec.pair, rec.kpos, done + {id})
      ensures |Spare(tab')| >= |Spare(tab)| - 1 && (Unmarked(tab) ==> Unmarked(tab'))
    {
      HasRoom(tab, rec.pair, rec.kpos, done);
      var k := FindSlot(tab, rec.pair[id]);
      Placed(tab, rec.pair, rec.kpos, done, id, k);
      tab' := tab[k := id];
      rec.kpos := rec.kpos[id := k];
    }

    /** Files every record listed in `tab` in the empty table `newtab`. */
    method Rehash(tab: seq<int>, empty: seq<int>, ghost dom: set<int>) returns (newtab: seq<int>)
      requires Holds(tab, rec.pair, rec.kpos, dom)
      requires Holds(empty, rec.pair, rec.kpos, {}) && |dom| < |empty| == |Spare(empty)| && Unmarked(empty)
      modifies rec`kpos
      ensures |newtab| == |empty| && Holds(newtab, rec.pair, rec.kpos, dom)
      ensures |Spare(newtab)| >= |newtab| - |dom| && Unmarked(newtab)
    {
      newtab := empty;
      ghost var done: set<int> := {};
      assert Listed(tab[..0]) == {};
      hide Filed, Listed, Unmarked;
      Unlisted(tab, rec.pair, rec.kpos, dom);
      var i := 0;
      while i < |tab|
        invariant 0 <= i <= |tab|
        invariant |newtab| == |empty|
        invariant Holds(newtab, rec.pair, rec.kpos, done)
        invariant done == Listed(tab[..i])
        invariant |Spare(newtab)| >= |newtab| - |done| && Unmarked(newtab)
      {
        ListedStep(tab, i);
        if tab[i] >= 0 {
          SubsetCard(done, dom);
          newtab := Refile(newtab, tab[i], done);
          done := done + {tab[i]};
        }
        i := i + 1;
      }
      assert tab[..i] == tab;
    }

    /** Moves every record to a table of twice the size; deletion marks are left behind. */
    method Resize(ghost dom: set<int>)
      requires Valid(dom)
      modifies this`table, this`maxpos, rec`kpos
      ensures Valid(dom) && maxpos == 2 * old(maxpos) + 1
      ensures |Spare(table)| >= old(|Spare(table)|) && Unmarked(table)
    {
      assert |rec.kpos| == |rec.pair|;
      hide IsPower, TopPower, Holds, Spare, Unmarked;
      Doubled(maxpos);
      var newmax := 2 * TopPower(2 * maxpos + 1) - 1;
      var empty := EmptyTable(newmax + 1);
      EmptyHolds(newmax + 1, rec.pair, rec.kpos);
      SpareBound(table);
      var newtab := Rehash(table, empty, dom);
      table, maxpos := newtab, newmax;
    }

    /** Marks the cell of record `id` as deleted. */
    method Delete(id: int, ghost dom: set<int>)
      requires Valid(dom) && id in dom
      modifies this`table, this`used
      ensures Valid(dom - {id})
      ensures |Spare(table)| == old(|Spare(table)|)
    {
      Marked(table, rec.pair, rec.kpos, dom, id);
      table := table[rec.kpos[id] := DELETED];
      used := used - 1;
    }

    /** Points the cell of a moved record at its new id. */
    method Repos(id: int)
      requires 0 <= id < |rec.kpos| && 0 <= rec.kpos[id] < |table|
      modifies this`table
      ensures table == old(table)[rec.kpos[id] := id]
    {
      table := table[rec.kpos[id] := id];
    }
  }

  /** After a run of probes without a match, the pair can only be filed beyond them. */
  lemma Missed(table: seq<int>, pair: seq<Pair>, kpos: seq<int>, dom: set<int>, p: Pair, probes: int)
    requires Holds(table, pair, kpos, dom) && 0 <= probes <= |table| && 0 < |table|
    requires forall j {:trigger Step(Home(p, |table|), j, |table|)} :: 0 <= j < probes ==>
               var t := table[Step(Home(p, |table|), j, |table|)]; t != NEVER && (t >= 0 ==> pair[t] != p)
    requires probes < |table| ==> table[Step(Home(p, |table|), probes, |table|)] == NEVER
    ensures forall i :: i in dom ==> pair[i] != p
    ensures probes == |table| ==> Spare(table) == {}
  {
    var h := Home(p, |table|);
    forall i | i in dom ensures pair[i] != p {
      assert Filed(table, pair[i], kpos[i], i);
      var h' := Home(pair[i], |table|);
      assert Step(h', Dist(h', kpos[i], |table|), |table|) == kpos[i];
    }
    if probes == |table| {
      forall k | 0 <= k < |table| ensures table[k] != NEVER {
        assert Step(h, Dist(h, k, |table|), |table|) == k;
      }
    }
  }
}
