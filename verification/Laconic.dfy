/**
 The serial pipeline: the vertices are cut into parts, each part is compressed, the parts are joined, and the rules
 that save nothing are inlined.
 */
module LaconicSerial {
  import opened RecordTable
  import opened Grammar
  import opened CsrRows
  import opened CsrCompress
  import opened PairIndexes
  import G = RuleGraph
  import T = RuleTables
  import opened MergeParts
  import opened MentionCounts
  import opened FilterPass

  // ---------- a compressed part as a graph with rules ----------

  ghost function PartRows(v: seq<int>, e: seq<int>, a: int, b: int): (p: Part)
    requires Csr(v, e) && 0 <= a && 0 <= b && a + b < |v|
  {
    Part(Cells(v, e)[..a], Cells(v, e)[a..a + b])
  }

  /** What every symbol of a part stands for. */
  ghost function Yields(rules: seq<Pair>, max: int): (m: G.Table)
    requires Grounded(rules, max)
    ensures |m| == max + |rules| && forall s :: 0 <= s < |m| ==> m[s] == Yield(rules, max, s)
  {
    seq(max + |rules|, s => Yield(rules, max, s))
  }

  lemma {:induction false} FlattenIsExpand(rules: seq<Pair>, max: int, t: seq<int>)
    requires Grounded(rules, max) && G.RowIn(t, max + |rules|)
    ensures G.Flatten(t, Yields(rules, max)) == Expand(rules, max, t)
  {
    if t != [] {
      FlattenIsExpand(rules, max, t[1..]);
    }
  }

  /** A symbol that is neither vertex nor rule would show in the expansion. */
  lemma {:induction false} StrayShows(rules: seq<Pair>, max: int, t: seq<int>, i: int)
    requires Grounded(rules, max) && 0 <= i < |t| && !(max <= t[i] < max + |rules|)
    ensures t[i] in Expand(rules, max, t)
  {
    if i == 0 {
      assert Yield(rules, max, t[0]) == [t[0]];
    } else {
      StrayShows(rules, max, t[1..], i - 1);
    }
  }

  lemma RowKnown(rules: seq<Pair>, max: int, t: seq<int>, row: seq<int>)
    requires Grounded(rules, max) && Expand(rules, max, t) == row && forall i :: 0 <= i < |row| ==> 0 <= row[i] < max
    ensures G.RowIn(t, max + |rules|)
  {
    forall i | 0 <= i < |t| ensures 0 <= t[i] < max + |rules| {
      if !(max <= t[i] < max + |rules|) {
        StrayShows(rules, max, t, i);
      }
    }
  }

  /** The rules of a part refer to earlier rules only, and each is mentioned. */
  ghost predicate Tidy(p: Part, V: int) {
    && (forall k, i {:trigger p.ruleRows[k][i]} :: 0 <= k < |p.ruleRows| && 0 <= i < |p.ruleRows[k]| ==>
         p.ruleRows[k][i] < V + k)
    && (forall k :: 0 <= k < |p.ruleRows| ==> |p.ruleRows[k]| >= 1)
    && (forall s :: V <= s < V + |p.ruleRows| ==> Used(p.vertexRows, s) || Used(p.ruleRows, s))
  }

  /** The result of compressing a part, read as a graph with rules: every vertex row stands for the given row. */
  lemma FaithfulPart(rows: seq<seq<int>>, max: int, v: seq<int>, e: seq<int>, rules: seq<Pair>)
    requires Faithful(rows, max, v, e, rules) && Vertices(rows, max) && 0 <= max
    requires forall s :: max <= s < max + |rules| ==> Used(Cells(v, e), s)
    ensures var p, m := PartRows(v, e, |rows|, |rules|), Yields(rules, max);
            && PartSolves(p, max, m) && Tidy(p, max)
            && forall k :: 0 <= k < |rows| ==> G.RowIn(p.vertexRows[k], |m|) && G.Flatten(p.vertexRows[k], m) == rows[k]
  {
    var p, m := PartRows(v, e, |rows|, |rules|), Yields(rules, max);
    forall k | 0 <= k < |rows| ensures G.RowIn(p.vertexRows[k], |m|) && G.Flatten(p.vertexRows[k], m) == rows[k] {
      RowKnown(rules, max, p.vertexRows[k], rows[k]);
      FlattenIsExpand(rules, max, p.vertexRows[k]);
    }
    FaithfulRules(rows, max, v, e, rules);
    forall s | max <= s < max + |rules| ensures Used(p.vertexRows, s) || Used(p.ruleRows, s) {
      UsedWhere(v, e, |rows|, |rules|, s);
    }
  }

  lemma FaithfulRules(rows: seq<seq<int>>, max: int, v: seq<int>, e: seq<int>, rules: seq<Pair>)
    requires Faithful(rows, max, v, e, rules) && 0 <= max
    ensures var p, m := PartRows(v, e, |rows|, |rules|), Yields(rules, max);
            forall k :: 0 <= k < |rules| ==>
              p.ruleRows[k] == [rules[k].left, rules[k].right] && G.RowIn(p.ruleRows[k], |m|)
              && m[max + k] == G.Flatten(p.ruleRows[k], m)
  {
    var p, m := PartRows(v, e, |rows|, |rules|), Yields(rules, max);
    forall k | 0 <= k < |rules|
      ensures p.ruleRows[k] == [rules[k].left, rules[k].right] && G.RowIn(p.ruleRows[k], |m|)
              && m[max + k] == G.Flatten(p.ruleRows[k], m)
    {
      assert p.ruleRows[k] == Cells(v, e)[|rows| + k];
      G.FlattenConcat([rules[k].left], [rules[k].right], m);
      G.FlattenOne(rules[k].left, m);
      G.FlattenOne(rules[k].right, m);
      assert [rules[k].left] + [rules[k].right] == [rules[k].left, rules[k].right];
    }
  }

  lemma UsedWhere(v: seq<int>, e: seq<int>, a: int, b: int, s: int)
    requires Csr(v, e) && 0 <= a && 0 <= b && |v| == a + b + 1 && v[|v| - 1] == |e| && Used(Cells(v, e), s)
    ensures var p := PartRows(v, e, a, b); Used(p.vertexRows, s) || Used(p.ruleRows, s)
  {
    var p, cells := PartRows(v, e, a, b), Cells(v, e);
    var r, i :| 0 <= r < |cells| && 0 <= i < |cells[r]| && cells[r][i] == s;
    assert cells[a + b] == [];
    if r < a {
      assert p.vertexRows[r][i] == s;
    } else {
      assert p.ruleRows[r - a][i] == s;
    }
  }

  // ---------- the joined graph ----------

  ghost function Ident(n: int): (h: seq<nat>)
    requires 0 <= n
    ensures |h| == n && forall s :: 0 <= s < n ==> h[s] == s
  {
    seq(n, s requires 0 <= s < n => s)
  }

  lemma {:induction false} MentionsAtLeast(g: G.Table, r: int, c: int)
    requires 0 <= r < |g|
    ensures Mentions(g, c) >= G.Tally(g[r], c)
  {
    if r < |g| - 1 {
      MentionsAtLeast(g[..|g| - 1], r, c);
    }
  }

  lemma MentionedAt(g: G.Table, r: int, i: int)
    requires 0 <= r < |g| && 0 <= i < |g[r]|
    ensures Mentions(g, g[r][i]) >= 1
  {
    G.TallyIn(g[r], g[r][i]);
    MentionsAtLeast(g, r, g[r][i]);
  }

  ghost predicate AllTidy(parts: seq<Part>, V: int) {
    forall i :: 0 <= i < |parts| ==> Tidy(parts[i], V)
  }

  lemma JoinedRule(g: G.Table, parts: seq<Part>, V: int, r: int)
    requires Joined(g, parts, V) && AllTidy(parts, V) && V <= r < |g|
    ensures |g[r]| >= 1 && forall j :: 0 <= j < |g[r]| && V <= g[r][j] ==> g[r][j] < r
  {
    var i := RuleHome(parts, |parts|, r - V);
    assert Placed(g, parts, V, i);
    var k := r - V - RuleSum(parts, i);
    assert Tidy(parts[i], V);
    assert g[r] == Shifted(parts[i].ruleRows[k], V, RuleSum(parts, i));
    forall j | 0 <= j < |g[r]| && V <= g[r][j] ensures g[r][j] < r {
      assert parts[i].ruleRows[k][j] < V + k;
    }
  }

  lemma JoinedUse(g: G.Table, parts: seq<Part>, V: int, c: int)
    requires Joined(g, parts, V) && AllTidy(parts, V) && V <= c < |g|
    ensures Mentions(g, c) >= 1
  {
    hide Mentions;
    var i := RuleHome(parts, |parts|, c - V);
    assert Placed(g, parts, V, i);
    assert Tidy(parts[i], V);
    var p, vo, ro := parts[i], VertexSum(parts, i), RuleSum(parts, i);
    var s := c - ro;
    if Used(p.vertexRows, s) {
      var r, j :| 0 <= r < |p.vertexRows| && 0 <= j < |p.vertexRows[r]| && p.vertexRows[r][j] == s;
      assert g[vo + r] == Shifted(p.vertexRows[r], V, ro);
      MentionedAt(g, vo + r, j);
    } else {
      var r, j :| 0 <= r < |p.ruleRows| && 0 <= j < |p.ruleRows[r]| && p.ruleRows[r][j] == s;
      assert g[V + ro + r] == Shifted(p.ruleRows[r], V, ro);
      MentionedAt(g, V + ro + r, j);
    }
  }

  /** Tidy parts join to a sane graph. */
  lemma JoinedSane(g: G.Table, parts: seq<Part>, V: int, ms: seq<G.Table>)
    requires Joined(g, parts, V) && AllSolve(parts, V, ms) && AllTidy(parts, V)
    ensures Sane(g, V, Ident(|g|))
  {
    hide Joined, AllSolve, AllTidy, Mentions;
    JoinedRange(g, parts, V, ms);
    JoinedSize(g, parts, V);
    forall c | V <= c < |g| ensures |g[c]| >= 1 && Mentions(g, c) >= 1 {
      JoinedRule(g, parts, V, c);
      JoinedUse(g, parts, V, c);
    }
    forall r, j | V <= r < |g| && 0 <= j < |g[r]| && V <= g[r][j] ensures g[r][j] < r {
      JoinedRule(g, parts, V, r);
    }
  }

  lemma JoinedSize(g: G.Table, parts: seq<Part>, V: int)
    requires Joined(g, parts, V)
    ensures 0 <= V <= |g| && V == VertexSum(parts, |parts|)
  {
  }

  // ---------- the parts ----------

  /** The rows from `start` up to `end`, as a graph of their own. */
  function SubVlist(vlist: seq<int>, start: int, end: int): (r: seq<int>)
    requires 0 <= start <= end < |vlist|
    ensures |r| == end - start + 1 && forall j :: 0 <= j < |r| ==> r[j] == vlist[start + j] - vlist[start]
  {
    seq(end - start + 1, j requires 0 <= j < end - start + 1 => vlist[start + j] - vlist[start])
  }

  function SubElist(elist: seq<int>, from: int, to: int): (r: seq<int>)
    requires 0 <= from <= to <= |elist|
  {
    elist[from..if to < |elist| then to + 1 else to]
  }

  lemma SubRows(vlist: seq<int>, elist: seq<int>, start: int, end: int)
    requires Csr(vlist, elist) && 0 <= start <= end < |vlist|
    ensures var pv, pe := SubVlist(vlist, start, end), SubElist(elist, vlist[start], vlist[end]);
            && Csr(pv, pe) && Readable(pv, pe) && Readable(vlist, elist)
            && forall k :: 0 <= k < end - start ==> Row(pv, pe, k) == Row(vlist, elist, start + k)
  {
    hide Csr, Readable, Row;
    CsrReadable(vlist, elist);
    CsrBounds(vlist, elist);
    SubCsr(vlist, elist, start, end);
    var pv, pe := SubVlist(vlist, start, end), SubElist(elist, vlist[start], vlist[end]);
    CsrReadable(pv, pe);
    forall k | 0 <= k < end - start ensures Row(pv, pe, k) == Row(vlist, elist, start + k) {
      SubRow(vlist, elist, start, end, k);
    }
  }

  lemma SubCsr(vlist: seq<int>, elist: seq<int>, start: int, end: int)
    requires Csr(vlist, elist) && 0 <= start <= end < |vlist|
    ensures Csr(SubVlist(vlist, start, end), SubElist(elist, vlist[start], vlist[end]))
  {
    assert vlist[start] <= vlist[end];
  }

  lemma SubRow(vlist: seq<int>, elist: seq<int>, start: int, end: int, k: int)
    requires Csr(vlist, elist) && 0 <= start <= end < |vlist| && 0 <= k < end - start
    requires Readable(vlist, elist) && Readable(SubVlist(vlist, start, end), SubElist(elist, vlist[start], vlist[end]))
    ensures Row(SubVlist(vlist, start, end), SubElist(elist, vlist[start], vlist[end]), k) ==
              Row(vlist, elist, start + k)
  {
    CsrBounds(vlist, elist);
    hide Csr, Readable;
    var from, to := vlist[start], vlist[end];
    assert from <= vlist[start + k] <= vlist[start + k + 1] <= to;
    var pe := SubElist(elist, from, to);
    var lo, hi := vlist[start + k] - from, vlist[start + k + 1] - from;
    assert pe[..to - from] == elist[from..to];
    SliceSlice(pe, 0, to - from, lo, hi);
    SliceSlice(elist, from, to, lo, hi);
  }

  lemma SliceSlice(s: seq<int>, from: int, to: int, lo: int, hi: int)
    requires 0 <= from <= to <= |s| && 0 <= lo <= hi <= to - from
    ensures s[from..to][lo..hi] == s[from + lo..from + hi]
  {
    var a := s[from..to];
    forall i | 0 <= i < hi - lo ensures a[lo..hi][i] == s[from + lo..from + hi][i] {
      assert a[lo..hi][i] == a[lo + i];
    }
  }

  lemma CsrReadable(v: seq<int>, e: seq<int>)
    requires Csr(v, e)
    ensures Readable(v, e) && forall k :: 0 <= k < |v| - 1 ==> Row(v, e, k) == Cells(v, e)[k]
  {
  }

  lemma {:induction false} WeaveLength(v: seq<int>, e: seq<int>, k: int, sep: int)
    requires Csr(v, e) && Readable(v, e) && 0 <= k < |v|
    ensures |Weave(Rows(v, e, k), sep)| == v[k] + k
  {
    if k > 0 {
      WeaveLength(v, e, k - 1, sep);
      WeaveStep(v, e, k - 1, sep);
      assert |Row(v, e, k - 1)| == v[k] - v[k - 1];
    }
  }

  /** The rows from `start` up to `end`. */
  ghost function Tile(vlist: seq<int>, elist: seq<int>, start: int, end: int): (rows: seq<seq<int>>)
    requires Readable(vlist, elist) && 0 <= start <= end < |vlist|
    ensures |rows| == end - start && forall k :: 0 <= k < end - start ==> rows[k] == Row(vlist, elist, start + k)
  {
    Rows(vlist, elist, end)[start..end]
  }

  /** Compresses the rows from `start` up to `end`. */
  method CompressPart(vlist: seq<int>, elist: seq<int>, V: int, start: int, end: int)
    returns (ok: bool, v: seq<int>, e: seq<int>, a: int, b: int, ghost m: G.Table)
    requires Csr(vlist, elist) && |vlist| == V + 1 && 0 <= start <= end <= V && 2 * V <= MAX_INT
    requires |elist| + V <= MAX_INT
    requires forall i :: 0 <= i < |elist| ==> 0 <= elist[i] < V
    ensures 3 * (|elist| + V) <= 131072 ==> ok
    ensures ok ==> a == end - start && b >= 0 && Csr(v, e) && Readable(v, e) && |v| == a + b + 1
    ensures ok ==> PartSolves(PartOf(v, e, a, b), V, m) && Tidy(PartOf(v, e, a, b), V)
    ensures ok ==> Readable(vlist, elist) && forall k :: 0 <= k < a ==>
              G.RowIn(PartOf(v, e, a, b).vertexRows[k], |m|)
              && G.Flatten(PartOf(v, e, a, b).vertexRows[k], m) == Row(vlist, elist, start + k)
    ensures Readable(vlist, elist)
    ensures var tile := Tile(vlist, elist, start, end);
            if ok then ByRun(tile, V, PartOf(v, e, a, b).vertexRows, PartOf(v, e, a, b).ruleRows) else Stuck(tile, V)
  {
    hide Csr, Readable, Weave, Faithful, Tidy, PartSolves, Irreducible, ByRun, Stuck, Tile, Rows, Row, PartOf, Used,
         SubVlist;
    m, a, b := [], 0, 0;
    SubRows(vlist, elist, start, end);
    CsrBounds(vlist, elist);
    var pv, pe := SubVlist(vlist, start, end), SubElist(elist, vlist[start], vlist[end]);
    ghost var rows := Rows(pv, pe, end - start);
    SameTile(vlist, elist, pv, pe, start, end);
    WeaveLength(pv, pe, end - start, V);
    PartVertices(pv, pe, V, end - start);
    ghost var rules;
    ok, v, e, a, b, rules := CompressCsr(pv, pe, V);
    if !ok { return; }
    FaithfulSize(rows, V, v, e, rules);
    FaithfulPart(rows, V, v, e, rules);
    m := Yields(rules, V);
    CsrReadable(v, e);
    SamePart(v, e, a, b);
  }

  lemma SameTile(vlist: seq<int>, elist: seq<int>, pv: seq<int>, pe: seq<int>, start: int, end: int)
    requires Readable(vlist, elist) && Readable(pv, pe) && 0 <= start <= end < |vlist| && |pv| == end - start + 1
    requires forall k :: 0 <= k < end - start ==> Row(pv, pe, k) == Row(vlist, elist, start + k)
    ensures Rows(pv, pe, end - start) == Tile(vlist, elist, start, end)
  {
    hide Readable, Row;
  }

  lemma SamePart(v: seq<int>, e: seq<int>, a: int, b: int)
    requires Csr(v, e) && Readable(v, e) && 0 <= a && 0 <= b && a + b == |v| - 1
    requires forall k :: 0 <= k < |v| - 1 ==> Row(v, e, k) == Cells(v, e)[k]
    ensures PartOf(v, e, a, b) == PartRows(v, e, a, b)
  {
    hide Csr, Readable, Row;
  }

  lemma CsrBounds(v: seq<int>, e: seq<int>)
    requires Csr(v, e)
    ensures forall i :: 0 <= i < |v| ==> 0 <= v[i] <= |e|
    ensures forall i, j :: 0 <= i <= j < |v| ==> v[i] <= v[j]
  {
  }

  lemma PartVertices(v: seq<int>, e: seq<int>, V: int, k: int)
    requires Csr(v, e) && Readable(v, e) && 0 <= k < |v| && forall i :: 0 <= i < |e| ==> 0 <= e[i] < V
    ensures Vertices(Rows(v, e, k), V)
  {
  }

  /** The parts compressed so far: each is tidy, and its vertex rows stand for the given rows from `bounds[i]` on. */
  ghost predicate Compressed(vlist: seq<int>, elist: seq<int>, V: int, bounds: seq<int>, parts: seq<Part>,
                             ms: seq<G.Table>) {
    && Readable(vlist, elist) && |vlist| == V + 1 && |bounds| == |parts| + 1 && bounds[0] == 0
    && (forall i :: 0 <= i < |bounds| ==> 0 <= bounds[i] <= V && bounds[i] == VertexSum(parts, i))
    && AllSolve(parts, V, ms) && AllTidy(parts, V)
    && forall i :: 0 <= i < |parts| ==> Stands(vlist, elist, V, bounds[i], parts[i], ms[i])
  }

  /** A part is what a greedy run on the given rows from `start` on gives, and its vertex rows stand for them. */
  ghost predicate Stands(vlist: seq<int>, elist: seq<int>, V: int, start: int, p: Part, m: G.Table)
    requires Readable(vlist, elist)
  {
    && 0 <= start && start + |p.vertexRows| <= V && |vlist| == V + 1
    && ByRun(Tile(vlist, elist, start, start + |p.vertexRows|), V, p.vertexRows, p.ruleRows)
    && forall k :: 0 <= k < |p.vertexRows| ==>
         G.RowIn(p.vertexRows[k], |m|) && G.Flatten(p.vertexRows[k], m) == Row(vlist, elist, start + k)
  }

  lemma CompressedStep(vlist: seq<int>, elist: seq<int>, V: int, bounds: seq<int>, parts: seq<Part>,
                       ms: seq<G.Table>, p: Part, m: G.Table, end: int)
    requires Compressed(vlist, elist, V, bounds, parts, ms) && PartSolves(p, V, m) && Tidy(p, V)
    requires Stands(vlist, elist, V, bounds[|parts|], p, m) && end == bounds[|parts|] + |p.vertexRows| <= V
    ensures Compressed(vlist, elist, V, bounds + [end], parts + [p], ms + [m])
  {
    hide PartSolves, Tidy, Stands, Readable, VertexSum;
    var bounds', parts', ms' := bounds + [end], parts + [p], ms + [m];
    forall i | 0 <= i < |bounds'| ensures 0 <= bounds'[i] <= V && bounds'[i] == VertexSum(parts', i) {
      BoundsStep(parts, p, i);
    }
    forall i | 0 <= i < |parts'|
      ensures PartSolves(parts'[i], V, ms'[i]) && Tidy(parts'[i], V)
      ensures Stands(vlist, elist, V, bounds'[i], parts'[i], ms'[i])
    {
      if i < |parts| {
        assert parts'[i] == parts[i] && ms'[i] == ms[i] && bounds'[i] == bounds[i];
        assert PartSolves(parts[i], V, ms[i]) && Tidy(parts[i], V)
               && Stands(vlist, elist, V, bounds[i], parts[i], ms[i]);
      }
    }
    hide Compressed;
    assert Compressed(vlist, elist, V, bounds', parts', ms') by { CompressedOf(vlist, elist, V, bounds', parts', ms'); }
  }

  lemma CompressedOf(vlist: seq<int>, elist: seq<int>, V: int, bounds: seq<int>, parts: seq<Part>, ms: seq<G.Table>)
    requires Readable(vlist, elist) && |vlist| == V + 1 && |bounds| == |parts| + 1 == |ms| + 1 && bounds[0] == 0
    requires forall i :: 0 <= i < |bounds| ==> 0 <= bounds[i] <= V && bounds[i] == VertexSum(parts, i)
    requires forall i :: 0 <= i < |parts| ==>
               PartSolves(parts[i], V, ms[i]) && Tidy(parts[i], V)
               && Stands(vlist, elist, V, bounds[i], parts[i], ms[i])
    ensures Compressed(vlist, elist, V, bounds, parts, ms)
  {
    hide PartSolves, Tidy, Stands, Readable, VertexSum;
  }

  lemma BoundsStep(parts: seq<Part>, p: Part, i: int)
    requires 0 <= i <= |parts| + 1
    ensures VertexSum(parts + [p], i) == if i <= |parts| then VertexSum(parts, i)
            else VertexSum(parts, |parts|) + |p.vertexRows|
  {
    if i <= |parts| {
      SumPrefix(parts, p, i);
    } else {
      SumPrefix(parts, p, |parts|);
    }
  }

  lemma {:induction false} SumPrefix(parts: seq<Part>, p: Part, i: int)
    requires 0 <= i <= |parts|
    ensures VertexSum(parts + [p], i) == VertexSum(parts, i)
  {
    if i > 0 {
      SumPrefix(parts, p, i - 1);
    }
  }

  /** The arrays of the parts. */
  ghost predicate Arrays(vlists: seq<seq<int>>, elists: seq<seq<int>>, vertexMap: seq<int>, ruleMap: seq<int>,
                         parts: seq<Part>) {
    && Given(vlists, elists, vertexMap, ruleMap) && parts == Parts(vlists, elists, vertexMap, ruleMap)
  }

  lemma ArraysStep(vlists: seq<seq<int>>, elists: seq<seq<int>>, vertexMap: seq<int>, ruleMap: seq<int>,
                   parts: seq<Part>,
                   v: seq<int>, e: seq<int>, a: int, b: int)
    requires Arrays(vlists, elists, vertexMap, ruleMap, parts) && Readable(v, e) && 0 <= a && 0 <= b && a + b < |v|
    ensures Arrays(vlists + [v], elists + [e], vertexMap + [a], ruleMap + [b], parts + [PartOf(v, e, a, b)])
  {
    hide Readable, PartOf;
  }

  /** Cuts the vertices into parts of `V / partNum + 1` rows and compresses them one by one. */
  method CompressParts(vlist: seq<int>, elist: seq<int>, V: int, partNum: int)
    returns (ok: bool, vlists: seq<seq<int>>, elists: seq<seq<int>>, vertexMap: seq<int>, ruleMap: seq<int>,
             ghost bounds: seq<int>, ghost parts: seq<Part>, ghost ms: seq<G.Table>)
    requires Csr(vlist, elist) && |vlist| == V + 1 && 2 * V <= MAX_INT && |elist| + V <= MAX_INT
    requires forall i :: 0 <= i < |elist| ==> 0 <= elist[i] < V
    requires 1 <= partNum && (partNum - 1) * (V / partNum + 1) <= V
    ensures 3 * (|elist| + V) <= 131072 ==> ok
    ensures ok ==> Compressed(vlist, elist, V, bounds, parts, ms) && Arrays(vlists, elists, vertexMap, ruleMap, parts)
    ensures ok ==> VertexSum(parts, |parts|) == V && CutEvenly(V, partNum, bounds)
    ensures Readable(vlist, elist) && (!ok ==> SomeStuck(vlist, elist, V, partNum))
  {
    hide Csr, Readable, Compressed, Arrays, Tidy, PartSolves, PartOf, ByRun, Stuck, Tile;
    vlists, elists, vertexMap, ruleMap := [], [], [], [];
    bounds, parts, ms := [0], [], [];
    ok := true;
    NoParts(vlist, elist, V);
    var tile, i := V / partNum + 1, 0;
    while i < partNum
      invariant ok && 0 <= i <= partNum && |parts| == i && |bounds| == i + 1
      invariant forall k :: 0 <= k <= i ==> bounds[k] == Cut(V, partNum, k)
      invariant Compressed(vlist, elist, V, bounds, parts, ms) && Arrays(vlists, elists, vertexMap, ruleMap, parts)
    {
      Tiles(V, tile, i, partNum);
      assert bounds[i] == Cut(V, partNum, i);
      var start := i * tile;
      var end := Least((i + 1) * tile, V);
      var done, v, e, a, b, m := CompressPart(vlist, elist, V, start, end);
      ok := done;
      if !ok {
        assert StuckAt(vlist, elist, V, partNum, i);
        return;
      }
      ArraysStep(vlists, elists, vertexMap, ruleMap, parts, v, e, a, b);
      PartSizes(v, e, a, b);
      CompressedStep(vlist, elist, V, bounds, parts, ms, PartOf(v, e, a, b), m, end);
      vlists, elists, vertexMap, ruleMap := vlists + [v], elists + [e], vertexMap + [a], ruleMap + [b];
      bounds, parts, ms := bounds + [end], parts + [PartOf(v, e, a, b)], ms + [m];
      i := i + 1;
    }
    AllTiles(V, partNum);
    LastBound(vlist, elist, V, bounds, parts, ms);
  }

  /** Where part `i` begins. */
  ghost function Cut(V: int, partNum: int, i: int): (b: int)
    requires 1 <= partNum
  {
    Least(i * (V / partNum + 1), V)
  }

  ghost predicate CutEvenly(V: int, partNum: int, bounds: seq<int>)
    requires 1 <= partNum
  {
    |bounds| == partNum + 1 && forall i :: 0 <= i <= partNum ==> bounds[i] == Cut(V, partNum, i)
  }

  /** The run on part `i` may stop because a hash search never ends. */
  ghost predicate StuckAt(vlist: seq<int>, elist: seq<int>, V: int, partNum: int, i: int)
    requires Readable(vlist, elist) && 1 <= partNum
  {
    var start, end := Cut(V, partNum, i), Cut(V, partNum, i + 1);
    0 <= i < partNum && 0 <= start <= end < |vlist| && Stuck(Tile(vlist, elist, start, end), V)
  }

  ghost predicate SomeStuck(vlist: seq<int>, elist: seq<int>, V: int, partNum: int)
    requires Readable(vlist, elist) && 1 <= partNum
  {
    exists i :: StuckAt(vlist, elist, V, partNum, i)
  }

  function Least(a: int, b: int): (r: int) {
    if a > b then b else a
  }

  lemma Tiles(V: int, tile: int, i: int, partNum: int)
    requires 0 <= V && 1 <= tile && 0 <= i < partNum && (partNum - 1) * tile <= V
    ensures 0 <= i * tile <= V && i * tile <= Least((i + 1) * tile, V) <= V
  {
    assert i * tile <= (partNum - 1) * tile;
    assert (i + 1) * tile == i * tile + tile;
  }

  lemma AllTiles(V: int, partNum: int)
    requires 0 <= V && 1 <= partNum
    ensures partNum * (V / partNum + 1) >= V
  {
    assert V == partNum * (V / partNum) + V % partNum;
  }

  lemma NoParts(vlist: seq<int>, elist: seq<int>, V: int)
    requires Csr(vlist, elist) && |vlist| == V + 1
    ensures Compressed(vlist, elist, V, [0], [], []) && Arrays([], [], [], [], []) && Readable(vlist, elist)
  {
  }

  lemma PartSizes(v: seq<int>, e: seq<int>, a: int, b: int)
    requires Readable(v, e) && 0 <= a && 0 <= b && a + b < |v|
    ensures |PartOf(v, e, a, b).vertexRows| == a && |PartOf(v, e, a, b).ruleRows| == b
  {
  }

  lemma LastBound(vlist: seq<int>, elist: seq<int>, V: int, bounds: seq<int>, parts: seq<Part>, ms: seq<G.Table>)
    requires Compressed(vlist, elist, V, bounds, parts, ms)
    ensures VertexSum(parts, |parts|) == bounds[|parts|]
  {
  }

  // ---------- the pipeline ----------

  lemma RowsAreCells(v: seq<int>, e: seq<int>, n: int)
    requires Csr(v, e) && |v| == n + 1
    ensures Readable(v, e) && Rows(v, e, n) == Cells(v, e)[..n]
  {
    CsrReadable(v, e);
    hide Csr, Readable, Row, Cells;
  }

  /** In the joined graph, vertex `x` stands for its given row. */
  lemma JoinedStands(g: G.Table, vlist: seq<int>, elist: seq<int>, V: int, bounds: seq<int>, parts: seq<Part>,
                     ms: seq<G.Table>, h: seq<nat>, x: int)
    requires Joined(g, parts, V) && Compressed(vlist, elist, V, bounds, parts, ms) && G.Ranked(g, V, h) && 0 <= x < V
    ensures |g| >= V && G.RowIn(g[x], |g|) && G.Flatten(g[x], G.Meaning(g, V, h)) == Row(vlist, elist, x)
  {
    hide PartSolves, Placed, Tidy, G.Flatten, G.Meaning, JoinedMeaning, Row, G.Ranked, G.Solves, ByRun, Tile;
    var i := VertexHome(parts, |parts|, x);
    var k := x - VertexSum(parts, i);
    var m := JoinedMeaning(parts, V, ms, |parts|);
    VertexKept(g, parts, V, ms, i, k);
    assert Stands(vlist, elist, V, bounds[i], parts[i], ms[i]);
    JoinSolves(g, parts, V, ms);
    G.MeaningSolves(g, V, h);
    SameMeaning(g, V, h, m);
  }

  lemma SameMeaning(g: G.Table, V: int, h: seq<nat>, m: G.Table)
    requires G.Ranked(g, V, h) && G.Solves(g, V, m)
    ensures m == G.Meaning(g, V, h)
  {
    G.MeaningSolves(g, V, h);
    forall s | 0 <= s < |g| ensures m[s] == G.Meaning(g, V, h)[s] {
      G.MeaningUnique(g, V, h, m, G.Meaning(g, V, h), s);
    }
  }

  /** A graph with rules in which every vertex stands for its given row. */
  ghost predicate Lossless(vlist: seq<int>, elist: seq<int>, V: int, g: G.Table, m: G.Table, h: seq<nat>)
    requires Readable(vlist, elist)
  {
    && |vlist| == V + 1 && V <= |g| && G.Ranked(g, V, h) && G.Solves(g, V, m)
    && forall x :: 0 <= x < V ==> G.RowIn(g[x], |m|) && G.Flatten(g[x], m) == Row(vlist, elist, x)
  }

  /** The graph after the filter pass. */
  lemma FilteredLossless(g: G.Table, vlist: seq<int>, elist: seq<int>, V: int, bounds: seq<int>, parts: seq<Part>,
                         ms: seq<G.Table>,
                         h: seq<nat>, g': G.Table, m': G.Table, h': seq<nat>)
    requires Joined(g, parts, V) && Compressed(vlist, elist, V, bounds, parts, ms) && G.Ranked(g, V, h)
    requires Filtered(g, V, G.Meaning(g, V, h), g', m', h', 0)
    ensures Readable(vlist, elist) && Lossless(vlist, elist, V, g', m', h')
  {
    hide Joined, AllSolve, AllTidy, Stands, G.Flatten, G.Meaning, Row, Mentions, Judge, Readable;
    forall x | 0 <= x < V ensures G.RowIn(g'[x], |m'|) && G.Flatten(g'[x], m') == Row(vlist, elist, x) {
      JoinedStands(g, vlist, elist, V, bounds, parts, ms, h, x);
      G.RowOf(g', x);
    }
  }

  /**
   The steps of the pipeline: the vertices are cut evenly, a greedy run compresses each part, the parts are joined to
   `g`, and the rules whose inlining makes the graph no longer, when they have their turn, are inlined.
   */
  ghost predicate Pipeline(vlist: seq<int>, elist: seq<int>, V: int, partNum: int, bounds: seq<int>, parts: seq<Part>,
                           ms: seq<G.Table>, g: G.Table, g': G.Table) {
    && 1 <= partNum && CutEvenly(V, partNum, bounds) && Compressed(vlist, elist, V, bounds, parts, ms)
    && Joined(g, parts, V) && 0 <= V <= |g| && LeftOver(Pruned(g, V, 0, |g| - V), V, g')
  }

  /** Compresses a graph part by part, joins the parts and filters the rules. */
  method Laconic(vlist: seq<int>, elist: seq<int>, V: int, partNum: int)
    returns (ok: bool, v: seq<int>, e: seq<int>, ruleCount: int, ghost m: G.Table, ghost h: seq<nat>,
             ghost bounds: seq<int>, ghost parts: seq<Part>, ghost ms: seq<G.Table>, ghost g: G.Table)
    requires Csr(vlist, elist) && |vlist| == V + 1 && 2 * V <= MAX_INT && |elist| + V <= MAX_INT
    requires forall i :: 0 <= i < |elist| ==> 0 <= elist[i] < V
    requires 1 <= partNum && (partNum - 1) * (V / partNum + 1) <= V
    ensures 3 * (|elist| + V) <= 131072 ==> ok
    ensures ok ==>
              Csr(v, e) && 0 <= ruleCount && |v| == V + ruleCount + 1 && v[|v| - 1] == |e| && Readable(vlist, elist)
    ensures ok ==> Lossless(vlist, elist, V, Cells(v, e)[..V + ruleCount], m, h)
    ensures ok ==>
              forall c :: V <= c < V + ruleCount ==>
                       !Judge(|Cells(v, e)[c]|, Mentions(Cells(v, e)[..V + ruleCount], c), 0)
    ensures ok ==> Pipeline(vlist, elist, V, partNum, bounds, parts, ms, g, Cells(v, e)[..V + ruleCount])
    ensures Readable(vlist, elist) && (!ok ==> SomeStuck(vlist, elist, V, partNum))
  {
    hide Csr, Readable, Compressed, Arrays, Joined, Sane, Filtered, Lossless, Judge, Mentions, AllSolve, AllTidy, Row,
         CutEvenly, SomeStuck, LeftOver, Pruned, Costly, G.Meaning, VertexSum, RuleSum;
    v, e, ruleCount, m, h, g := [0], [], 0, [], [], [];
    var vlists, elists, vertexMap, ruleMap;
    ok, vlists, elists, vertexMap, ruleMap, bounds, parts, ms := CompressParts(vlist, elist, V, partNum);
    if !ok { return; }
    ArraysGiven(vlists, elists, vertexMap, ruleMap, parts);
    var v1, e1, vertexCount, rules := Merge(vlists, elists, vertexMap, ruleMap);
    g := Cells(v1, e1)[..vertexCount + rules];
    JoinedSize(g, parts, vertexCount);
    CompressedParts(vlist, elist, V, bounds, parts, ms);
    JoinedSane(g, parts, V, ms);
    RowsAreCells(v1, e1, V + rules);
    SaneRanked(g, V, Ident(|g|));
    v, e, ruleCount, m, h := FilterCsr(v1, e1, V, rules, 0, Ident(|g|));
    ghost var g' := Cells(v, e)[..V + ruleCount];
    FilteredLossless(g, vlist, elist, V, bounds, parts, ms, Ident(|g|), g', m, h);
    FilteredWorth(g, V, G.Meaning(g, V, Ident(|g|)), g', m, h);
  }

  lemma ArraysGiven(vlists: seq<seq<int>>, elists: seq<seq<int>>, vertexMap: seq<int>, ruleMap: seq<int>,
                    parts: seq<Part>)
    requires Arrays(vlists, elists, vertexMap, ruleMap, parts)
    ensures Given(vlists, elists, vertexMap, ruleMap) && parts == Parts(vlists, elists, vertexMap, ruleMap)
  {
  }

  lemma CompressedParts(vlist: seq<int>, elist: seq<int>, V: int, bounds: seq<int>, parts: seq<Part>, ms: seq<G.Table>)
    requires Compressed(vlist, elist, V, bounds, parts, ms)
    ensures AllSolve(parts, V, ms) && AllTidy(parts, V)
  {
  }

  lemma SaneRanked(g: G.Table, V: int, h: seq<nat>)
    requires Sane(g, V, h)
    ensures G.Ranked(g, V, h)
  {
  }

  lemma FilteredWorth(g: G.Table, V: int, m: G.Table, g': G.Table, m': G.Table, h': seq<nat>)
    requires Filtered(g, V, m, g', m', h', 0)
    ensures forall c :: V <= c < |g'| ==> !Judge(|g'[c]|, Mentions(g', c), 0)
  {
  }

  /** A lossless result passes the check. */
  lemma PassesCheck(vlist: seq<int>, elist: seq<int>, V: int, g: G.Table, m: G.Table, h: seq<nat>, h': seq<nat>)
    requires Readable(vlist, elist) && Lossless(vlist, elist, V, g, m, h) && G.Ranked(g, V, h')
    ensures forall v :: 0 <= v < V ==>
              (G.RowOf(g, v); multiset(Row(vlist, elist, v)) == multiset(G.Flatten(g[v], G.Meaning(g, V, h'))))
  {
    hide G.Flatten, G.Meaning;
    SameMeaning(g, V, h', m);
  }
}
