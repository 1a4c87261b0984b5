/**
 Reading a graph with rules from compressed sparse rows, transposing it, and writing what is left of it after some
 rules have been inlined: the flagged rules drop out and the others are numbered anew, without gaps.
 */
module RuleTables {
  import opened RuleGraph
  import opened Inlining
  import opened CsrRows

  // ---------- reading ----------

  /** The first `n` rows, as lists. */
  method Load(vlist: seq<int>, elist: seq<int>, n: int) returns (g: Table)
    requires Readable(vlist, elist) && 0 <= n && (n == 0 || n < |vlist|)
    ensures g == Rows(vlist, elist, n)
  {
    hide Readable;
    g := [];
    var v := 0;
    while v < n
      invariant 0 <= v <= n && g == Rows(vlist, elist, v)
    {
      var row := LoadRow(vlist, elist, v);
      g := g + [row];
      v := v + 1;
    }
  }

  method LoadRow(vlist: seq<int>, elist: seq<int>, v: int) returns (row: seq<int>)
    requires Readable(vlist, elist) && 0 <= v < |vlist| - 1
    ensures row == Row(vlist, elist, v)
  {
    row := [];
    var e := vlist[v];
    while e < vlist[v + 1]
      invariant vlist[v] < vlist[v + 1] ==> vlist[v] <= e <= vlist[v + 1]
      invariant row == if vlist[v] < vlist[v + 1] then elist[vlist[v]..e] else []
    {
      row := row + [elist[e]];
      e := e + 1;
    }
  }

  /** Of the transpose, the mentions in the first `v` rows and in the first `k` places of row `v` are there. */
  ghost predicate HalfExact(g: Table, t: Table, v: int, k: int) {
    && 0 <= v < |g| == |t| && 0 <= k <= |g[v]| && InRange(t, |g|)
    && forall c, r {:trigger Tally(t[c], r)} :: 0 <= c < |g| && 0 <= r < |g| ==>
         Tally(t[c], r) == if r < v then Tally(g[r], c) else if r == v then Tally(g[v][..k], c) else 0
  }

  lemma HalfExactStep(g: Table, t: Table, v: int, k: int)
    requires HalfExact(g, t, v, k) && k < |g[v]| && 0 <= g[v][k] < |g|
    ensures var c := g[v][k]; HalfExact(g, t[c := t[c] + [v]], v, k + 1)
  {
    var x := g[v][k];
    var t' := t[x := t[x] + [v]];
    forall c, r | 0 <= c < |g| && 0 <= r < |g|
      ensures Tally(t'[c], r) == if r < v then Tally(g[r], c) else if r == v then Tally(g[v][..k + 1], c) else 0
    {
      TallyPrefix(g[v], k, c);
      TallyPrefix(t'[x], |t[x]|, r);
      assert t'[x][..|t[x]|] == t[x];
      assert Tally(t'[c], r) == Tally(t[c], r) + if c == x && r == v then 1 else 0;
    }
  }

  /** Lists, for every node, the rows that mention it. */
  method Transpose(g: Table) returns (t: Table)
    requires InRange(g, |g|)
    ensures Exact(g, t, {})
  {
    hide HalfExact, Tally;
    t := seq(|g|, _ => []);
    var v := 0;
    EmptyExact(g, t);
    while v < |g|
      invariant 0 <= v <= |g| == |t|
      invariant if v < |g| then HalfExact(g, t, v, 0) else Exact(g, t, {})
    {
      t := AddMentions(g, t, v);
      RowExact(g, t, v);
      v := v + 1;
    }
  }

  lemma EmptyExact(g: Table, t: Table)
    requires |t| == |g| && forall c :: 0 <= c < |g| ==> t[c] == []
    ensures if |g| > 0 then HalfExact(g, t, 0, 0) else Exact(g, t, {})
  {
  }

  lemma RowExact(g: Table, t: Table, v: int)
    requires 0 <= v < |g| && HalfExact(g, t, v, |g[v]|)
    ensures if v + 1 < |g| then HalfExact(g, t, v + 1, 0) else Exact(g, t, {})
  {
    assert g[v][..|g[v]|] == g[v];
    if v + 1 < |g| {
      assert g[v + 1][..0] == [];
    }
  }

  method AddMentions(g: Table, t0: Table, v: int) returns (t: Table)
    requires InRange(g, |g|) && 0 <= v < |g| && HalfExact(g, t0, v, 0)
    ensures |t| == |g| && HalfExact(g, t, v, |g[v]|)
  {
    hide HalfExact;
    t := t0;
    var k := 0;
    HalfExactSize(g, t, v, k);
    while k < |g[v]|
      invariant 0 <= k <= |g[v]| && |t| == |g| && HalfExact(g, t, v, k)
    {
      HalfExactStep(g, t, v, k);
      t := t[g[v][k] := t[g[v][k]] + [v]];
      k := k + 1;
    }
  }

  lemma HalfExactSize(g: Table, t: Table, v: int, k: int)
    requires HalfExact(g, t, v, k)
    ensures |t| == |g|
  {
  }

  // ---------- numbering the rules anew ----------

  /** How many of the first `k` rules are not flagged. */
  function Kept(flag: seq<bool>, k: int): (n: nat)
    requires 0 <= k <= |flag|
    ensures n <= k
  {
    if k == 0 then 0 else Kept(flag, k - 1) + if flag[k - 1] then 0 else 1
  }

  /** The new number of a node. */
  function Renumber(flag: seq<bool>, V: int, s: int): (r: int)
    requires 0 <= s <= V + |flag|
  {
    if s < V then s else V + Kept(flag, s - V)
  }

  /** The new numbers of all rules, and how many rules are left. */
  method NewIds(flag: seq<bool>, V: int) returns (ids: seq<int>, count: int)
    ensures |ids| == |flag| && (forall k :: 0 <= k < |flag| ==> ids[k] == V + Kept(flag, k))
    ensures count == Kept(flag, |flag|)
  {
    ids := [];
    var cur, i := V, 0;
    while i < |flag|
      invariant 0 <= i <= |flag| && |ids| == i && cur == V + Kept(flag, i)
      invariant forall k :: 0 <= k < i ==> ids[k] == V + Kept(flag, k)
    {
      ids := ids + [cur];
      if !flag[i] {
        cur := cur + 1;
      }
      i := i + 1;
    }
    count := cur - V;
  }

  ghost predicate Dropped(flag: seq<bool>, V: int, r: int) {
    V <= r < V + |flag| && flag[r - V]
  }

  ghost function Mapped(row: seq<int>, flag: seq<bool>, V: int): (r: seq<int>)
    requires RowIn(row, V + |flag|)
    ensures |r| == |row| && forall i :: 0 <= i < |row| ==> r[i] == Renumber(flag, V, row[i])
  {
    seq(|row|, i requires 0 <= i < |row| => Renumber(flag, V, row[i]))
  }

  ghost function MapAll(g: Table, flag: seq<bool>, V: int): (r: Table)
    requires InRange(g, V + |flag|)
    ensures |r| == |g| && forall s :: 0 <= s < |g| ==> r[s] == (RowRange(g, V + |flag|, s); Mapped(g[s], flag, V))
  {
    seq(|g|, s requires 0 <= s < |g| => (RowRange(g, V + |flag|, s); Mapped(g[s], flag, V)))
  }

  /** The first `n` entries without those of flagged rules. */
  ghost function Live<T>(xs: seq<T>, flag: seq<bool>, V: int, n: int): (r: seq<T>)
    requires 0 <= n <= |xs|
  {
    if n == 0 then [] else Live(xs, flag, V, n - 1) + if Dropped(flag, V, n - 1) then [] else [xs[n - 1]]
  }

  lemma RowRange(g: Table, n: int, r: int)
    requires InRange(g, n) && 0 <= r < |g|
    ensures RowIn(g[r], n)
  {
  }

  /** Writes the rows that are left. */
  method Write(g: Table, ids: seq<int>, flag: seq<bool>, V: int) returns (v: seq<int>, e: seq<int>)
    requires 0 <= V && InRange(g, V + |flag|) && |g| == V + |flag|
    requires |ids| == |flag| && forall k :: 0 <= k < |flag| ==> ids[k] == V + Kept(flag, k)
    ensures Csr(v, e) && Cells(v, e) == Live(MapAll(g, flag, V), flag, V, |g|) + [[]]
  {
    hide Csr, Kept;
    v, e := [0], [];
    var r := 0;
    ghost var all := MapAll(g, flag, V);
    FirstCell();
    while r < |g|
      invariant 0 <= r <= |g| && Csr(v, e) && Cells(v, e) == Live(all, flag, V, r) + [[]]
    {
      if !(r >= V && flag[r - V]) {
        RowRange(g, V + |flag|, r);
        var row := WriteRow(g[r], ids, flag, V);
        RowClosed(v, e, Live(all, flag, V, r), row);
        e := e + row;
        v := v + [|e|];
      }
      r := r + 1;
    }
  }

  lemma FirstCell()
    ensures Csr([0], []) && Cells([0], []) == [[]]
  {
  }

  method WriteRow(row: seq<int>, ids: seq<int>, flag: seq<bool>, V: int) returns (out: seq<int>)
    requires RowIn(row, V + |flag|) && |ids| == |flag| && forall k :: 0 <= k < |flag| ==> ids[k] == V + Kept(flag, k)
    ensures out == Mapped(row, flag, V)
  {
    out := [];
    var i := 0;
    while i < |row|
      invariant 0 <= i <= |row| && out == Mapped(row, flag, V)[..i]
    {
      out := out + [if row[i] >= V then ids[row[i] - V] else row[i]];
      i := i + 1;
    }
  }

  // ---------- what the renumbering keeps ----------

  lemma {:induction false} LiveSize<T>(xs: seq<T>, flag: seq<bool>, V: int, n: int)
    requires 0 <= V && 0 <= n <= |xs| == V + |flag|
    ensures |Live(xs, flag, V, n)| == Renumber(flag, V, n)
  {
    if n > 0 {
      LiveSize(xs, flag, V, n - 1);
    }
  }

  /** A node that is left is found under its new number. */
  lemma {:induction false} LiveAt<T>(xs: seq<T>, flag: seq<bool>, V: int, n: int, s: int)
    requires 0 <= V && 0 <= s < n <= |xs| == V + |flag| && !Dropped(flag, V, s)
    ensures 0 <= Renumber(flag, V, s) < |Live(xs, flag, V, n)| && Live(xs, flag, V, n)[Renumber(flag, V, s)] == xs[s]
  {
    LiveSize(xs, flag, V, n - 1);
    if s < n - 1 {
      LiveAt(xs, flag, V, n - 1, s);
    }
  }

  /** Every new number belongs to a node that is left. */
  lemma {:induction false} Origin(flag: seq<bool>, V: int, n: int, s': int) returns (s: int)
    requires 0 <= V && 0 <= n <= V + |flag| && 0 <= s' < Renumber(flag, V, n)
    ensures 0 <= s < n && !Dropped(flag, V, s) && Renumber(flag, V, s) == s' && (s' < V <==> s < V)
  {
    if !Dropped(flag, V, n - 1) && s' == Renumber(flag, V, n - 1) {
      s := n - 1;
    } else {
      s := Origin(flag, V, n - 1, s');
    }
  }

  lemma {:induction false} KeptGrows(flag: seq<bool>, j: int, k: int)
    requires 0 <= j < k <= |flag|
    ensures Kept(flag, j) <= Kept(flag, k) && (!flag[j] ==> Kept(flag, j) < Kept(flag, k))
  {
    if j < k - 1 {
      KeptGrows(flag, j, k - 1);
    }
  }

  /** Nodes that are left keep their order, so their new numbers differ. */
  lemma RenumberGrows(flag: seq<bool>, V: int, s: int, s': int)
    requires 0 <= V && 0 <= s < s' < V + |flag| && !Dropped(flag, V, s)
    ensures Renumber(flag, V, s) < Renumber(flag, V, s')
  {
    if s >= V {
      KeptGrows(flag, s - V, s' - V);
    }
  }

  ghost predicate NoneDropped(row: seq<int>, flag: seq<bool>, V: int) {
    forall i :: 0 <= i < |row| ==> !Dropped(flag, V, row[i])
  }

  lemma {:induction false} FlattenMapped(row: seq<int>, flag: seq<bool>, V: int, m: Table)
    requires 0 <= V && |m| == V + |flag| && RowIn(row, |m|) && NoneDropped(row, flag, V)
    ensures RowIn(Mapped(row, flag, V), |Live(m, flag, V, |m|)|)
    ensures Flatten(Mapped(row, flag, V), Live(m, flag, V, |m|)) == Flatten(row, m)
  {
    forall i | 0 <= i < |row| ensures 0 <= Renumber(flag, V, row[i]) < |Live(m, flag, V, |m|)| {
      LiveAt(m, flag, V, |m|, row[i]);
    }
    if row != [] {
      LiveAt(m, flag, V, |m|, row[0]);
      FlattenMapped(row[1..], flag, V, m);
      assert Mapped(row, flag, V)[1..] == Mapped(row[1..], flag, V);
    }
  }

  /** No row that is left mentions a flagged rule. */
  ghost predicate Closed(g: Table, flag: seq<bool>, V: int) {
    forall r :: 0 <= r < |g| && !Dropped(flag, V, r) ==> NoneDropped(g[r], flag, V)
  }

  /** The graph that is left: meanings and ranks go over to the new numbers. */
  lemma ShrinkSolves(g: Table, flag: seq<bool>, V: int, m: Table, h: seq<nat>)
    requires 0 <= V && |g| == V + |flag| && Ranked(g, V, h) && Solves(g, V, m) && Closed(g, flag, V)
    ensures var g' := Live(MapAll(g, flag, V), flag, V, |g|);
            && Ranked(g', V, Live(h, flag, V, |g|)) && Solves(g', V, Live(m, flag, V, |g|))
            && |g'| == V + Kept(flag, |flag|)
    ensures forall v :: 0 <= v < V ==> Kin(g, flag, V, m, v)
  {
    hide Flatten, Live, MapAll, Ranked, Closed, Kin, Renumber, InRange, Kept;
    RankedRange(g, V, h);
    ShrinkRanked(g, flag, V, h);
    var g', m' := Live(MapAll(g, flag, V), flag, V, |g|), Live(m, flag, V, |g|);
    ShrinkSizes(g, flag, V, m);
    ShrinkRange(g, flag, V);
    forall s' | 0 <= s' < |g'| ensures m'[s'] == if s' < V then [s'] else (RowOf(g', s'); Flatten(g'[s'], m')) {
      ShrinkSolvesAt(g, flag, V, m, s');
    }
    forall v | 0 <= v < V ensures Kin(g, flag, V, m, v) {
      ShrinkKin(g, flag, V, m, v);
    }
  }

  lemma ShrinkSolvesAt(g: Table, flag: seq<bool>, V: int, m: Table, s': int)
    requires 0 <= V && |g| == V + |flag| && Solves(g, V, m) && Closed(g, flag, V) && 0 <= s' < V + Kept(flag, |flag|)
    ensures var g', m' := Live(MapAll(g, flag, V), flag, V, |g|), Live(m, flag, V, |g|);
            |m'| == |g'| == V + Kept(flag, |flag|) && RowIn(g'[s'], |m'|) && m'[s'] == if s' < V then [s']
            else Flatten(g'[s'], m')
  {
    hide Flatten, Live, MapAll, Closed, Kept;
    ShrinkSizes(g, flag, V, m);
    var s := Origin(flag, V, |g|, s');
    RowOf(g, s);
    ShrinkAt(g, flag, V, m, s);
  }

  lemma ShrinkSizes(g: Table, flag: seq<bool>, V: int, m: Table)
    requires 0 <= V && |g| == |m| == V + |flag| && InRange(g, |g|)
    ensures |Live(MapAll(g, flag, V), flag, V, |g|)| == |Live(m, flag, V, |g|)| == Renumber(flag, V, |g|) == V
              + Kept(flag, |flag|)
  {
    LiveSize(MapAll(g, flag, V), flag, V, |g|);
    LiveSize(m, flag, V, |g|);
  }

  lemma RankedRange(g: Table, V: int, h: seq<nat>)
    requires Ranked(g, V, h)
    ensures InRange(g, |g|) && |h| == |g|
  {
  }

  /** A row that is left stands for what it stood for. */
  lemma ShrinkAt(g: Table, flag: seq<bool>, V: int, m: Table, s: int)
    requires 0 <= V && |g| == |m| == V + |flag| && InRange(g, |g|) && Closed(g, flag, V) && 0 <= s < |g|
             && !Dropped(flag, V, s)
    ensures var g', m', s' := Live(MapAll(g, flag, V), flag, V, |g|), Live(m, flag, V, |g|), Renumber(flag, V, s);
            && 0 <= s' < |g'| && s' < |m'| && m'[s'] == m[s] && RowIn(g[s], |m|) && RowIn(g'[s'], |m'|)
            && Flatten(g'[s'], m') == Flatten(g[s], m)
  {
    hide Flatten, Live, Renumber;
    var all := MapAll(g, flag, V);
    LiveAt(all, flag, V, |g|, s);
    LiveAt(m, flag, V, |g|, s);
    RowOf(g, s);
    FlattenMapped(g[s], flag, V, m);
  }

  lemma ShrinkKin(g: Table, flag: seq<bool>, V: int, m: Table, v: int)
    requires 0 <= v < V <= |g| == |m| == V + |flag| && InRange(g, |g|) && Closed(g, flag, V)
    ensures Kin(g, flag, V, m, v)
  {
    ShrinkAt(g, flag, V, m, v);
  }

  /** Row `v` stands for the same vertices as before. */
  ghost predicate Kin(g: Table, flag: seq<bool>, V: int, m: Table, v: int)
    requires 0 <= v < V <= |g| == |m| == V + |flag| && InRange(g, |g|)
  {
    var g', m' := Live(MapAll(g, flag, V), flag, V, |g|), Live(m, flag, V, |g|);
    RowOf(g, v);
    v < |g'| && RowIn(g'[v], |m'|) && Flatten(g'[v], m') == Flatten(g[v], m)
  }

  lemma ShrinkRange(g: Table, flag: seq<bool>, V: int)
    requires 0 <= V && |g| == V + |flag| && InRange(g, |g|) && Closed(g, flag, V)
    ensures var g' := Live(MapAll(g, flag, V), flag, V, |g|); InRange(g', |g'|)
  {
    var all := MapAll(g, flag, V);
    var g' := Live(all, flag, V, |g|);
    LiveSize(all, flag, V, |g|);
    forall r', i | 0 <= r' < |g'| && 0 <= i < |g'[r']| ensures 0 <= g'[r'][i] < |g'| {
      var r := Origin(flag, V, |g|, r');
      LiveAt(all, flag, V, |g|, r);
      LiveAt(all, flag, V, |g|, g[r][i]);
    }
  }

  lemma ShrinkRanked(g: Table, flag: seq<bool>, V: int, h: seq<nat>)
    requires 0 <= V && |g| == V + |flag| && Ranked(g, V, h) && Closed(g, flag, V)
    ensures Ranked(Live(MapAll(g, flag, V), flag, V, |g|), V, Live(h, flag, V, |g|))
  {
    ShrinkRange(g, flag, V);
    var all := MapAll(g, flag, V);
    var g', h' := Live(all, flag, V, |g|), Live(h, flag, V, |g|);
    LiveSize(all, flag, V, |g|);
    LiveSize(h, flag, V, |g|);
    forall r', i | V <= r' < |g'| && 0 <= i < |g'[r']| && V <= g'[r'][i] ensures h'[g'[r'][i]] < h'[r'] {
      var r := Origin(flag, V, |g|, r');
      LiveAt(all, flag, V, |g|, r);
      LiveAt(h, flag, V, |g|, r);
      LiveAt(h, flag, V, |g|, g[r][i]);
    }
  }
}
