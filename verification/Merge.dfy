/**
 Joining parts that were compressed separately.

 All parts share the vertices below `V`; each numbers its own rules from `V` on.  Joined, the vertex rows of all parts
 come first and the rule rows after them, and the rules of a part are shifted behind those of the parts before it.
 */
module MergeParts {
  import opened RuleGraph
  import opened RuleTables
  import opened CsrRows

  datatype Part = Part(vertexRows: Table, ruleRows: Table)

  /** How many vertex rows the first `k` parts have. */
  ghost function VertexSum(parts: seq<Part>, k: int): (s: nat)
    requires 0 <= k <= |parts|
  {
    if k == 0 then 0 else VertexSum(parts, k - 1) + |parts[k - 1].vertexRows|
  }

  /** How many rules the first `k` parts have. */
  ghost function RuleSum(parts: seq<Part>, k: int): (s: nat)
    requires 0 <= k <= |parts|
  {
    if k == 0 then 0 else RuleSum(parts, k - 1) + |parts[k - 1].ruleRows|
  }

  lemma {:induction false} SumsGrow(parts: seq<Part>, j: int, k: int)
    requires 0 <= j < k <= |parts|
    ensures VertexSum(parts, j) + |parts[j].vertexRows| <= VertexSum(parts, k)
    ensures RuleSum(parts, j) + |parts[j].ruleRows| <= RuleSum(parts, k)
  {
    if j < k - 1 {
      SumsGrow(parts, j, k - 1);
    }
  }

  /** The rows of a part mention vertices and rules of the part. */
  ghost predicate Proper(p: Part, V: int) {
    0 <= V && InRange(p.vertexRows, V + |p.ruleRows|) && InRange(p.ruleRows, V + |p.ruleRows|)
  }

  /** `m` gives the vertices and the rules of a part their meaning. */
  ghost predicate PartSolves(p: Part, V: int, m: Table) {
    && Proper(p, V) && |m| == V + |p.ruleRows|
    && (forall v :: 0 <= v < V ==> m[v] == [v])
    && (forall k {:trigger p.ruleRows[k]} :: 0 <= k < |p.ruleRows| ==>
         m[V + k] == (RowRange(p.ruleRows, |m|, k); Flatten(p.ruleRows[k], m)))
  }

  function Shift(x: int, V: int, off: int): (y: int) {
    if x >= V then x + off else x
  }

  ghost function Shifted(row: seq<int>, V: int, off: int): (r: seq<int>)
    ensures |r| == |row| && forall i :: 0 <= i < |row| ==> r[i] == Shift(row[i], V, off)
  {
    seq(|row|, i requires 0 <= i < |row| => Shift(row[i], V, off))
  }

  /** The rows of part `i` are in their places. */
  ghost predicate Placed(g: Table, parts: seq<Part>, V: int, i: int)
    requires 0 <= i < |parts|
  {
    var p, vo, ro := parts[i], VertexSum(parts, i), RuleSum(parts, i);
    && vo + |p.vertexRows| <= V && V + ro + |p.ruleRows| <= |g|
    && (forall x {:trigger g[x]} :: vo <= x < vo + |p.vertexRows| ==> g[x] == Shifted(p.vertexRows[x - vo], V, ro))
    && (forall x {:trigger g[x]} :: V + ro <= x < V + ro + |p.ruleRows| ==>
         g[x] == Shifted(p.ruleRows[x - V - ro], V, ro))
  }

  /** The joined graph. */
  ghost predicate Joined(g: Table, parts: seq<Part>, V: int) {
    && V == VertexSum(parts, |parts|) && |g| == V + RuleSum(parts, |parts|)
    && forall i :: 0 <= i < |parts| ==> Placed(g, parts, V, i)
  }

  // ---------- meanings ----------

  ghost predicate AllSolve(parts: seq<Part>, V: int, ms: seq<Table>) {
    0 <= V && |ms| == |parts| && forall i :: 0 <= i < |parts| ==> PartSolves(parts[i], V, ms[i])
  }

  /** The joined meanings: the vertices, then the rules of the first `k` parts. */
  ghost function JoinedMeaning(parts: seq<Part>, V: int, ms: seq<Table>, k: int): (m: Table)
    requires AllSolve(parts, V, ms) && 0 <= k <= |parts|
    ensures |m| == V + RuleSum(parts, k) && forall v :: 0 <= v < V ==> m[v] == [v]
  {
    if k == 0 then seq(V, v => [v]) else
      assert PartSolves(parts[k - 1], V, ms[k - 1]);
      JoinedMeaning(parts, V, ms, k - 1) + ms[k - 1][V..]
  }

  lemma {:induction false} MeaningAt(parts: seq<Part>, V: int, ms: seq<Table>, k: int, i: int, x: int)
    requires AllSolve(parts, V, ms) && 0 <= i < k <= |parts| && V <= x < V + |parts[i].ruleRows|
    ensures |ms[i]| == V + |parts[i].ruleRows| && RuleSum(parts, i) + x < V + RuleSum(parts, k)
    ensures JoinedMeaning(parts, V, ms, k)[RuleSum(parts, i) + x] == ms[i][x]
  {
    hide PartSolves;
    PartSize(parts[i], V, ms[i]);
    PartSize(parts[k - 1], V, ms[k - 1]);
    SumsGrow(parts, i, k);
    if i < k - 1 {
      MeaningAt(parts, V, ms, k - 1, i, x);
    }
  }

  lemma PartSize(p: Part, V: int, m: Table)
    requires PartSolves(p, V, m)
    ensures |m| == V + |p.ruleRows| && Proper(p, V) && forall v :: 0 <= v < V ==> m[v] == [v]
  {
  }

  /** A shifted row stands for what it stood for in its part. */
  lemma {:induction false} FlattenShifted(row: seq<int>, V: int, off: int, m: Table, m': Table)
    requires RowIn(row, |m|) && RowIn(Shifted(row, V, off), |m'|)
    requires forall i :: 0 <= i < |row| ==> m'[Shift(row[i], V, off)] == m[row[i]]
    ensures Flatten(Shifted(row, V, off), m') == Flatten(row, m)
  {
    if row != [] {
      FlattenShifted(row[1..], V, off, m, m');
      assert Shifted(row, V, off)[1..] == Shifted(row[1..], V, off);
    }
  }

  lemma RowShifts(parts: seq<Part>, V: int, ms: seq<Table>, i: int, row: seq<int>)
    requires AllSolve(parts, V, ms) && 0 <= i < |parts| && RowIn(row, V + |parts[i].ruleRows|)
    ensures var off, m' := RuleSum(parts, i), JoinedMeaning(parts, V, ms, |parts|);
            && |ms[i]| == V + |parts[i].ruleRows| && RowIn(Shifted(row, V, off), |m'|)
            && Flatten(Shifted(row, V, off), m') == Flatten(row, ms[i])
  {
    hide JoinedMeaning, Flatten, PartSolves;
    PartSize(parts[i], V, ms[i]);
    var off, m' := RuleSum(parts, i), JoinedMeaning(parts, V, ms, |parts|);
    forall k | 0 <= k < |row| ensures 0 <= Shift(row[k], V, off) < |m'| && m'[Shift(row[k], V, off)] == ms[i][row[k]] {
      if row[k] >= V {
        MeaningAt(parts, V, ms, |parts|, i, row[k]);
      }
    }
    FlattenShifted(row, V, off, ms[i], m');
  }

  /** Every node of the joined graph belongs to one part. */
  lemma {:induction false} RuleHome(parts: seq<Part>, k: int, s: int) returns (i: int)
    requires 0 <= k <= |parts| && 0 <= s < RuleSum(parts, k)
    ensures 0 <= i < k && RuleSum(parts, i) <= s < RuleSum(parts, i) + |parts[i].ruleRows|
  {
    if RuleSum(parts, k - 1) <= s {
      i := k - 1;
    } else {
      i := RuleHome(parts, k - 1, s);
    }
  }

  lemma {:induction false} VertexHome(parts: seq<Part>, k: int, s: int) returns (i: int)
    requires 0 <= k <= |parts| && 0 <= s < VertexSum(parts, k)
    ensures 0 <= i < k && VertexSum(parts, i) <= s < VertexSum(parts, i) + |parts[i].vertexRows|
  {
    if VertexSum(parts, k - 1) <= s {
      i := k - 1;
    } else {
      i := VertexHome(parts, k - 1, s);
    }
  }

  /** The vertex row `k` of part `i` stands for what it stood for. */
  lemma VertexKept(g: Table, parts: seq<Part>, V: int, ms: seq<Table>, i: int, k: int)
    requires Joined(g, parts, V) && AllSolve(parts, V, ms) && 0 <= i < |parts| && 0 <= k < |parts[i].vertexRows|
    ensures var m', v := JoinedMeaning(parts, V, ms, |parts|), VertexSum(parts, i) + k;
            && 0 <= v < V <= |g| && RowIn(g[v], |m'|) && RowIn(parts[i].vertexRows[k], |ms[i]|)
            && Flatten(g[v], m') == Flatten(parts[i].vertexRows[k], ms[i])
  {
    hide JoinedMeaning, Flatten, PartSolves;
    assert Placed(g, parts, V, i);
    PartSize(parts[i], V, ms[i]);
    RowRange(parts[i].vertexRows, V + |parts[i].ruleRows|, k);
    RowShifts(parts, V, ms, i, parts[i].vertexRows[k]);
  }

  /** The joined meanings solve the joined graph: every rule expands as it did in its part. */
  lemma JoinSolves(g: Table, parts: seq<Part>, V: int, ms: seq<Table>)
    requires Joined(g, parts, V) && AllSolve(parts, V, ms)
    ensures Solves(g, V, JoinedMeaning(parts, V, ms, |parts|))
  {
    hide JoinedMeaning, Flatten, PartSolves, Placed;
    var m' := JoinedMeaning(parts, V, ms, |parts|);
    JoinedRange(g, parts, V, ms);
    forall s | V <= s < |g| ensures RowIn(g[s], |m'|) && m'[s] == Flatten(g[s], m') {
      var i := RuleHome(parts, |parts|, s - V);
      RuleKept(g, parts, V, ms, i, s - V - RuleSum(parts, i));
    }
  }

  lemma RuleKept(g: Table, parts: seq<Part>, V: int, ms: seq<Table>, i: int, k: int)
    requires Joined(g, parts, V) && AllSolve(parts, V, ms) && 0 <= i < |parts| && 0 <= k < |parts[i].ruleRows|
    ensures var m', s := JoinedMeaning(parts, V, ms, |parts|), V + RuleSum(parts, i) + k;
            V <= s < |g| == |m'| && RowIn(g[s], |m'|) && m'[s] == Flatten(g[s], m')
  {
    hide JoinedMeaning, Flatten;
    assert Placed(g, parts, V, i);
    var p, m := parts[i], ms[i];
    assert PartSolves(p, V, m);
    RowRange(p.ruleRows, |m|, k);
    assert m[V + k] == Flatten(p.ruleRows[k], m);
    RowShifts(parts, V, ms, i, p.ruleRows[k]);
    MeaningAt(parts, V, ms, |parts|, i, V + k);
  }

  lemma JoinedRange(g: Table, parts: seq<Part>, V: int, ms: seq<Table>)
    requires Joined(g, parts, V) && AllSolve(parts, V, ms)
    ensures InRange(g, |g|)
  {
    hide JoinedMeaning, Flatten, PartSolves, Placed;
    forall r, j | 0 <= r < |g| && 0 <= j < |g[r]| ensures 0 <= g[r][j] < |g| {
      if r < V {
        var i := VertexHome(parts, |parts|, r);
        VertexKept(g, parts, V, ms, i, r - VertexSum(parts, i));
      } else {
        var i := RuleHome(parts, |parts|, r - V);
        RuleKept(g, parts, V, ms, i, r - V - RuleSum(parts, i));
      }
    }
  }

  // ---------- the loops ----------

  /** Part `i` as its arrays give it. */
  ghost function PartOf(vlist: seq<int>, elist: seq<int>, a: int, b: int): (p: Part)
    requires Readable(vlist, elist) && 0 <= a && 0 <= b && (a + b == 0 || a + b < |vlist|)
    ensures |p.vertexRows| == a && |p.ruleRows| == b
    ensures forall k :: 0 <= k < a ==> p.vertexRows[k] == Row(vlist, elist, k)
    ensures forall k :: 0 <= k < b ==> p.ruleRows[k] == Row(vlist, elist, a + k)
  {
    Part(Rows(vlist, elist, a + b)[..a], Rows(vlist, elist, a + b)[a..])
  }

  ghost predicate Given(vlists: seq<seq<int>>, elists: seq<seq<int>>, vertexMap: seq<int>, ruleMap: seq<int>) {
    && |vlists| == |elists| == |vertexMap| == |ruleMap|
    && forall i :: 0 <= i < |vlists| ==>
         && Readable(vlists[i], elists[i]) && 0 <= vertexMap[i] && 0 <= ruleMap[i]
         && (vertexMap[i] + ruleMap[i] == 0 || vertexMap[i] + ruleMap[i] < |vlists[i]|)
  }

  ghost function Parts(vlists: seq<seq<int>>, elists: seq<seq<int>>, vertexMap: seq<int>,
                       ruleMap: seq<int>): (parts: seq<Part>)
    requires Given(vlists, elists, vertexMap, ruleMap)
    ensures |parts| == |vlists|
    ensures forall i :: 0 <= i < |parts| ==> parts[i] == PartOf(vlists[i], elists[i], vertexMap[i], ruleMap[i])
  {
    seq(|vlists|, i requires 0 <= i < |vlists| => PartOf(vlists[i], elists[i], vertexMap[i], ruleMap[i]))
  }

  /** One row of a part, shifted. */
  method ShiftRow(vlist: seq<int>, elist: seq<int>, r: int, V: int, off: int) returns (row: seq<int>)
    requires Readable(vlist, elist) && 0 <= r < |vlist| - 1
    ensures row == Shifted(Row(vlist, elist, r), V, off)
  {
    row := [];
    var j := vlist[r];
    while j < vlist[r + 1]
      invariant vlist[r] < vlist[r + 1] ==> vlist[r] <= j <= vlist[r + 1] && row == Shifted(elist[vlist[r]..j], V, off)
      invariant vlist[r] >= vlist[r + 1] ==> row == []
    {
      var dst := elist[j];
      assert elist[vlist[r]..j + 1] == elist[vlist[r]..j] + [dst];
      row := row + [if dst >= V then dst + off else dst];
      j := j + 1;
    }
  }

  /** The table once `rows`, shifted, have been put at place `at` and after. */
  ghost function Laid(g: Table, rows: Table, at: int, V: int, off: int): (r: Table)
    ensures |r| == |g|
    ensures forall x :: 0 <= x < |g| ==> r[x] == if at <= x < at + |rows| then Shifted(rows[x - at], V, off) else g[x]
  {
    seq(|g|, x requires 0 <= x < |g| => if at <= x < at + |rows| then Shifted(rows[x - at], V, off) else g[x])
  }

  /** The rows of a part from row `r` on, `rows`, go to place `at` and after. */
  method PlaceRows(g0: Table, vlist: seq<int>, elist: seq<int>, r: int, count: int, at: int, V: int, off: int,
                   ghost rows: Table)
    returns (g: Table)
    requires Readable(vlist, elist) && 0 <= r && 0 <= count && (count > 0 ==> r + count < |vlist|) && 0 <= at
    requires at + count <= |g0|
    requires |rows| == count && forall k :: 0 <= k < count ==> rows[k] == Row(vlist, elist, r + k)
    ensures g == Laid(g0, rows, at, V, off)
  {
    hide Readable, Row;
    g := g0;
    var i := 0;
    while i < count
      invariant 0 <= i <= count && g == Laid(g0, rows[..i], at, V, off)
    {
      var row := ShiftRow(vlist, elist, r + i, V, off);
      assert rows[i] == Row(vlist, elist, r + i);
      g := g[at + i := row];
      i := i + 1;
    }
    assert rows[..i] == rows;
  }

  ghost predicate Filled(g: Table, parts: seq<Part>, V: int, i: int) {
    0 <= i <= |parts| && forall j :: 0 <= j < i ==> Placed(g, parts, V, j)
  }

  /** The table once the rows of part `i` are in their places. */
  ghost function WithPart(g: Table, parts: seq<Part>, V: int, i: int): (r: Table)
    requires 0 <= i < |parts|
    ensures |r| == |g|
  {
    var p, vo, ro := parts[i], VertexSum(parts, i), RuleSum(parts, i);
    Laid(Laid(g, p.vertexRows, vo, V, ro), p.ruleRows, V + ro, V, ro)
  }

  /** The rows of part `i` go to places that no earlier part uses. */
  lemma FilledStep(g: Table, parts: seq<Part>, V: int, i: int)
    requires Filled(g, parts, V, i) && i < |parts| && V == VertexSum(parts, |parts|)
    requires |g| == V + RuleSum(parts, |parts|)
    ensures Filled(WithPart(g, parts, V, i), parts, V, i + 1)
  {
    hide Placed, WithPart;
    SumsGrow(parts, i, |parts|);
    JustPlaced(g, parts, V, i);
    forall j | 0 <= j < i ensures Placed(WithPart(g, parts, V, i), parts, V, j) {
      StillPlaced(g, parts, V, i, j);
    }
  }

  lemma JustPlaced(g: Table, parts: seq<Part>, V: int, i: int)
    requires 0 <= i < |parts| && VertexSum(parts, i) + |parts[i].vertexRows| <= V
             && V + RuleSum(parts, i) + |parts[i].ruleRows| <= |g|
    ensures Placed(WithPart(g, parts, V, i), parts, V, i)
  {
    hide Shifted, Laid, VertexSum, RuleSum;
  }

  lemma StillPlaced(g: Table, parts: seq<Part>, V: int, i: int, j: int)
    requires 0 <= j < i < |parts| && Placed(g, parts, V, j) && VertexSum(parts, i) + |parts[i].vertexRows| <= V
    ensures Placed(WithPart(g, parts, V, i), parts, V, j)
  {
    SumsGrow(parts, j, i);
    hide Shifted, Laid, VertexSum, RuleSum;
  }

  /** Counts the vertices and the rules of all parts. */
  method CountAll(vertexMap: seq<int>, ruleMap: seq<int>, ghost parts: seq<Part>)
    returns (vertexCount: int, ruleCount: int)
    requires |vertexMap| == |ruleMap| == |parts|
    requires forall i :: 0 <= i < |parts| ==> |parts[i].vertexRows| == vertexMap[i] && |parts[i].ruleRows| == ruleMap[i]
    ensures vertexCount == VertexSum(parts, |parts|) && ruleCount == RuleSum(parts, |parts|)
  {
    vertexCount, ruleCount := 0, 0;
    var i := 0;
    while i < |vertexMap|
      invariant 0 <= i <= |vertexMap| && vertexCount == VertexSum(parts, i) && ruleCount == RuleSum(parts, i)
    {
      vertexCount, ruleCount := vertexCount + vertexMap[i], ruleCount + ruleMap[i];
      i := i + 1;
    }
  }

  /** Joins the parts. */
  method Merge(vlists: seq<seq<int>>, elists: seq<seq<int>>, vertexMap: seq<int>, ruleMap: seq<int>)
    returns (v: seq<int>, e: seq<int>, vertexCount: int, ruleCount: int)
    requires Given(vlists, elists, vertexMap, ruleMap)
    ensures Csr(v, e) && v[|v| - 1] == |e| && 0 <= vertexCount && 0 <= ruleCount && |v| == vertexCount + ruleCount + 1
    ensures Joined(Cells(v, e)[..vertexCount + ruleCount], Parts(vlists, elists, vertexMap, ruleMap), vertexCount)
  {
    hide Csr, Filled, Placed, Cells;
    ghost var parts := Parts(vlists, elists, vertexMap, ruleMap);
    vertexCount, ruleCount := CountAll(vertexMap, ruleMap, parts);
    var g := PlaceAll(vlists, elists, vertexMap, ruleMap, vertexCount, ruleCount, parts);
    v, e := WriteAll(g);
    FilledAll(g, parts, vertexCount);
    LastCell(v, e, g);
  }

  lemma FilledAll(g: Table, parts: seq<Part>, V: int)
    requires Filled(g, parts, V, |parts|) && V == VertexSum(parts, |parts|) && |g| == V + RuleSum(parts, |parts|)
    ensures Joined(g, parts, V)
  {
    hide Placed;
  }

  /** Puts all rows of all parts in their places. */
  method PlaceAll(vlists: seq<seq<int>>, elists: seq<seq<int>>, vertexMap: seq<int>, ruleMap: seq<int>,
                  vertexCount: int, ruleCount: int,
                  ghost parts: seq<Part>)
    returns (g: Table)
    requires Given(vlists, elists, vertexMap, ruleMap) && parts == Parts(vlists, elists, vertexMap, ruleMap)
    requires vertexCount == VertexSum(parts, |parts|) && ruleCount == RuleSum(parts, |parts|)
    ensures |g| == vertexCount + ruleCount && Filled(g, parts, vertexCount, |parts|)
  {
    hide Placed, Readable, Row, Laid, PartOf, VertexSum, RuleSum;
    NoneBefore(parts);
    g := seq(vertexCount + ruleCount, _ => []);
    var vo, ro, i := 0, 0, 0;
    while i < |vlists|
      invariant 0 <= i <= |vlists| && vo == VertexSum(parts, i) && ro == RuleSum(parts, i)
      invariant |g| == vertexCount + ruleCount
      invariant Filled(g, parts, vertexCount, i)
    {
      SumsGrow(parts, i, |parts|);
      FilledStep(g, parts, vertexCount, i);
      g := PlaceRows(g, vlists[i], elists[i], 0, vertexMap[i], vo, vertexCount, ro, parts[i].vertexRows);
      g := PlaceRows(g, vlists[i], elists[i], vertexMap[i], ruleMap[i], vertexCount + ro, vertexCount, ro,
                     parts[i].ruleRows);
      OneMore(parts, i);
      vo, ro := vo + vertexMap[i], ro + ruleMap[i];
      i := i + 1;
    }
  }

  lemma NoneBefore(parts: seq<Part>)
    ensures VertexSum(parts, 0) == 0 && RuleSum(parts, 0) == 0
  {
  }

  lemma OneMore(parts: seq<Part>, i: int)
    requires 0 <= i < |parts|
    ensures VertexSum(parts, i + 1) == VertexSum(parts, i) + |parts[i].vertexRows|
    ensures RuleSum(parts, i + 1) == RuleSum(parts, i) + |parts[i].ruleRows|
  {
  }

  /** Writes a table as compressed sparse rows. */
  method WriteAll(g: Table) returns (v: seq<int>, e: seq<int>)
    ensures Csr(v, e) && Cells(v, e) == g + [[]]
  {
    hide Csr;
    v, e := [0], [];
    FirstCell();
    var i := 0;
    while i < |g|
      invariant 0 <= i <= |g| && Csr(v, e) && Cells(v, e) == g[..i] + [[]]
    {
      RowClosed(v, e, g[..i], g[i]);
      assert g[..i + 1] == g[..i] + [g[i]];
      e := e + g[i];
      v := v + [|e|];
      i := i + 1;
    }
    assert g[..i] == g;
  }
}
