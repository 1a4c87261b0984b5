/**
 The depth pass: from the deepest level up to a given one, the rules of a level are inlined when the level as a whole
 has too few edges.
 */
module DepthPass {
  import opened RuleGraph
  import opened Inlining
  import opened RuleTables
  import opened MentionCounts
  import opened CsrRows
  import opened FilterPass
  import opened LevelOrder

  /** Levels grow from a row to the rules it mentions. */
  ghost predicate Steps(g: Table, V: int, order: seq<int>) {
    && |order| == |g| && 0 <= V && InRange(g, |g|)
    && forall r, i {:trigger g[r][i]} :: 0 <= r < |g| && 0 <= i < |g[r]| && V <= g[r][i] ==> order[r] < order[g[r][i]]
  }

  lemma LeveledSteps(g: Table, V: int, order: seq<int>)
    requires Leveled(g, V, order) && InRange(g, |g|)
    ensures Steps(g, V, order)
  {
    forall r, i | 0 <= r < |g| && 0 <= i < |g[r]| && V <= g[r][i] ensures order[r] < order[g[r][i]] {
      TallyIn(g[r], g[r][i]);
      assert LevelAt(g, order, g[r][i]) && Edge(g, r, g[r][i]);
    }
  }

  lemma PourSteps(g: Table, V: int, order: seq<int>, id: int, host: int)
    requires Steps(g, V, order) && V <= id < |g| && 0 <= host < |g| && Find(g[host], id) < |g[host]|
    ensures Steps(PourInto(g, id, host), V, order) && order[host] < order[id]
  {
    PourInRange(g, id, host);
    var g', k := PourInto(g, id, host), Find(g[host], id);
    var row, body := g[host], g[id];
    assert order[host] < order[row[k]];
    forall i | 0 <= i < |g'[host]| && V <= g'[host][i] ensures order[host] < order[g'[host][i]] {
      assert g'[host][i] == if i < k then row[i] else if i < k + |body| then body[i - k] else row[i - |body| + 1];
    }
  }

  /** The rows from level `d` on are as they were. */
  ghost predicate DeepKept(g: Table, g': Table, order: seq<int>, d: int) {
    |g| == |g'| == |order| && forall r :: 0 <= r < |g| && order[r] >= d ==> g'[r] == g[r]
  }

  /** How many edges the unflagged rules of level `d` have, among the first `k`. */
  ghost function LevelSize(g: Table, V: int, order: seq<int>, flag: seq<bool>, d: int, k: int): (n: nat)
    requires 0 <= V && 0 <= k <= |flag| && |g| == |order| == V + |flag|
  {
    if k == 0 then 0 else
      LevelSize(g, V, order, flag, d, k - 1) + if order[V + k - 1] == d && !flag[k - 1] then |g[V + k - 1]| else 0
  }

  /** All rules of level `d` are gone, or all are there and have `least` edges together. */
  ghost predicate AllOrEnough(g: Table, V: int, order: seq<int>, flag: seq<bool>, d: int, least: int)
    requires 0 <= V && |g| == |order| == V + |flag|
  {
    || (forall k :: 0 <= k < |flag| && order[V + k] == d ==> flag[k])
    || (&& (forall k :: 0 <= k < |flag| && order[V + k] == d ==> !flag[k])
        && LevelSize(g, V, order, flag, d, |flag|) >= least)
  }

  /** Every level from `low` on is inlined as a whole or big enough, and those below are untouched. */
  ghost predicate Trimmed(g: Table, V: int, order: seq<int>, flag: seq<bool>, low: int, least: int)
    requires 0 <= V && |g| == |order| == V + |flag|
  {
    && (forall d :: low <= d ==> AllOrEnough(g, V, order, flag, d, least))
    && (forall k :: 0 <= k < |flag| && order[V + k] < low ==> !flag[k])
  }

  lemma {:induction false} LevelSizeKept(g: Table, V: int, order: seq<int>, flag: seq<bool>, g': Table,
                                         flag': seq<bool>, d: int, k: int)
    requires 0 <= V && 0 <= k <= |flag| == |flag'| && |g| == |g'| == |order| == V + |flag|
    requires forall j :: 0 <= j < |flag| && order[V + j] == d ==> flag'[j] == flag[j] && g'[V + j] == g[V + j]
    ensures LevelSize(g', V, order, flag', d, k) == LevelSize(g, V, order, flag, d, k)
  {
    if k > 0 {
      LevelSizeKept(g, V, order, flag, g', flag', d, k - 1);
    }
  }

  // ---------- what the pass comes to ----------

  /** How many edges the rules of level `d` have, among the first `k`. */
  ghost function LevelEdges(g: Table, V: int, order: seq<int>, d: int, k: int): (n: nat)
    requires 0 <= V && 0 <= k <= |g| - V && |order| == |g|
  {
    if k == 0 then 0 else LevelEdges(g, V, order, d, k - 1) + if order[V + k - 1] == d then |g[V + k - 1]| else 0
  }

  lemma {:induction false} LevelEdgesSize(g: Table, V: int, order: seq<int>, flag: seq<bool>, d: int, k: int)
    requires 0 <= V && 0 <= k <= |flag| && |g| == |order| == V + |flag|
    requires forall j :: 0 <= j < |flag| && order[V + j] == d ==> !flag[j]
    ensures LevelEdges(g, V, order, d, k) == LevelSize(g, V, order, flag, d, k)
  {
    if k > 0 {
      LevelEdgesSize(g, V, order, flag, d, k - 1);
    }
  }

  /** The first `n` rules have had their turn; those of level `d` are inlined. */
  ghost function InlineLevel(s: Stage, V: int, order: seq<int>, d: int, n: int): (s': Stage)
    requires 0 <= V && 0 <= n <= |s.rows| - V && |order| == |s.rows|
    ensures |s'.rows| == |s.rows|
  {
    if n == 0 then s else
      var s' := InlineLevel(s, V, order, d, n - 1);
      if order[V + n - 1] == d then Without(s', V + n - 1) else s'
  }

  /**
   The levels from `top` down to `m + 1` have had their turn: each was inlined exactly when its rules, with the deeper
   levels that were inlined in their rows, had fewer than `least` edges together.
   */
  ghost function Sunk(g: Table, V: int, order: seq<int>, least: int, top: int, m: int): (s: Stage)
    requires 0 <= V <= |g| == |order|
    ensures |s.rows| == |g|
    decreases top - m
  {
    if m >= top then Stage(g, {}) else
      var s := Sunk(g, V, order, least, top, m + 1);
      if LevelEdges(s.rows, V, order, m + 1, |g| - V) >= least then s
      else InlineLevel(s, V, order, m + 1, |g| - V)
  }

  // ---------- rows do not lose what stands for something ----------

  /** How many symbols of a row stand for something. */
  ghost function Solid(row: seq<int>, m: Table): (n: nat)
    ensures n <= |row|
  {
    if row == [] then 0 else (if 0 <= row[0] < |m| && m[row[0]] != [] then 1 else 0) + Solid(row[1..], m)
  }

  lemma {:induction false} SolidConcat(a: seq<int>, b: seq<int>, m: Table)
    ensures Solid(a + b, m) == Solid(a, m) + Solid(b, m)
  {
    if a == [] {
      assert a + b == b;
    } else {
      SolidConcat(a[1..], b, m);
      assert (a + b)[1..] == a[1..] + b;
    }
  }

  lemma {:induction false} SolidFlat(row: seq<int>, m: Table)
    requires RowIn(row, |m|)
    ensures Flatten(row, m) != [] ==> Solid(row, m) >= 1
  {
    if row != [] {
      SolidFlat(row[1..], m);
    }
  }

  lemma {:induction false} SolidFilled(row: seq<int>, id: int, body: seq<int>, k: nat, m: Table)
    requires 0 <= id < |m| && RowIn(body, |m|) && m[id] == Flatten(body, m)
    ensures Solid(Filled(row, id, body, k), m) >= Solid(row, m)
  {
    if row != [] && k > 0 {
      SolidFlat(body, m);
      if row[0] == id {
        SolidFilled(row[1..], id, body, k - 1, m);
        SolidConcat(body, Filled(row[1..], id, body, k - 1), m);
      } else {
        SolidFilled(row[1..], id, body, k, m);
        SolidConcat([row[0]], Filled(row[1..], id, body, k), m);
        assert [row[0]][1..] == [];
      }
    }
  }

  /** No row has lost symbols that stand for something. */
  ghost predicate NotThinner(g: Table, g': Table, m: Table) {
    |g'| == |g| && forall r :: 0 <= r < |g| ==> Solid(g'[r], m) >= Solid(g[r], m)
  }

  lemma InlineNotThinner(g: Table, V: int, dead: set<int>, id: int, m: Table)
    requires Solves(g, V, m) && 0 <= V <= id < |g|
    ensures NotThinner(g, InlineRule(g, dead, id), m)
  {
    hide Solid, Flatten, Filled;
    RowOf(g, id);
    var g' := InlineRule(g, dead, id);
    forall r | 0 <= r < |g| ensures Solid(g'[r], m) >= Solid(g[r], m) {
      assert g'[r] == InlineAt(g, dead, id, r);
      SolidFilled(g[r], id, g[id], Tally(g[r], id), m);
    }
  }

  /** How many symbols in the rows of level `d` stand for something. */
  ghost function LevelSolid(g: Table, V: int, order: seq<int>, m: Table, d: int, k: int): (n: nat)
    requires 0 <= V && 0 <= k <= |g| - V && |order| == |g|
  {
    if k == 0 then 0 else
      LevelSolid(g, V, order, m, d, k - 1) + if order[V + k - 1] == d then Solid(g[V + k - 1], m) else 0
  }

  lemma {:induction false} LevelSolidEdges(g: Table, g': Table, V: int, order: seq<int>, m: Table, d: int, k: int)
    requires 0 <= V && 0 <= k <= |g| - V && |order| == |g| && NotThinner(g, g', m)
    ensures LevelSolid(g, V, order, m, d, k) <= LevelEdges(g', V, order, d, k)
  {
    hide Solid;
    if k > 0 {
      LevelSolidEdges(g, g', V, order, m, d, k - 1);
    }
  }

  /** A level from `low` on with `least` symbols that stand for something in the graph `g` is left alone. */
  ghost predicate Spared(g: Table, V: int, order: seq<int>, m: Table, flag: seq<bool>, low: int, least: int)
    requires 0 <= V && |g| == |order| == V + |flag|
  {
    forall k :: 0 <= k < |flag| && low <= order[V + k] && LevelSolid(g, V, order, m, order[V + k], |flag|) >= least ==>
      !flag[k]
  }

  class DepthFilter {
    var graph: Table
    var graphT: Table
    var flag: seq<bool>
    const V: int
    const order: seq<int>
    ghost var dead: set<int>
    ghost const mean: Table
    ghost const rank: seq<nat>

    ghost predicate Valid()
      reads this
    {
      && |graph| == V + |flag| && Ranked(graph, V, rank) && Solves(graph, V, mean) && Steps(graph, V, order)
      && Exact(graph, graphT, dead) && Clean(graph, dead) && Settled(flag, V, dead, |flag|)
    }

    constructor (g: Table, V: int, order: seq<int>, ghost h: seq<nat>)
      requires 0 <= V <= |g| && Ranked(g, V, h) && Leveled(g, V, order)
      ensures Valid() && graph == g && this.V == V && this.order == order && mean == Meaning(g, V, h) && rank == h
      ensures |flag| == |g| - V && forall k :: 0 <= k < |flag| ==> !flag[k]
    {
      hide Ranked, Solves, Steps, Exact;
      RankedRange(g, V, h);
      var t := Transpose(g);
      graph, graphT, flag := g, t, seq(|g| - V, _ => false);
      this.V, this.order := V, order;
      dead, mean, rank := {}, Meaning(g, V, h), h;
      MeaningSolves(g, V, h);
      LeveledSteps(g, V, order);
    }

    /** Every host of rule `r` takes in its row. */
    method MergeHosts(r: int)
      requires Valid() && 0 <= r < |flag| && !flag[r]
      modifies this`graph
      ensures |graph| == old(|graph|) && graph[V + r] == old(graph)[V + r] && 0 <= V && |graphT| == |graph|
      ensures Poured(old(graph), graph, V + r, graphT[V + r]) && Same(old(graph), graph, mean) && Ranked(graph, V, rank)
      ensures Steps(graph, V, order) && DeepKept(old(graph), graph, order, order[V + r])
      ensures Embedded(old(graph), graph, V + r, graphT[V + r])
    {
      hide Poured, Same, Solves, Exact, Ranked, Steps, Clean, HostsSoFar, Embedded;
      var id, j := V + r, 0;
      ghost var g0 := graph;
      Alive(r);
      HostsBegin(graph, graphT, V, mean, rank, id);
      while j < |graphT[id]|
        invariant 0 <= j <= |graphT[id]| && |graph| == |g0| == |graphT| && graph[id] == g0[id]
        invariant HostsSoFar(g0, graph, graphT[id][..j], V, mean, rank, id)
        invariant Steps(graph, V, order) && DeepKept(g0, graph, order, order[id])
      {
        HostsNext(g0, graphT, dead, graph, V, mean, rank, id, j);
        PourSteps(graph, V, order, id, graphT[id][j]);
        graph := PourInto(graph, id, graphT[id][j]);
        HostsRow(g0, graph, graphT[id][..j + 1], V, mean, rank, id);
        j := j + 1;
      }
      assert graphT[id][..j] == graphT[id];
      HostsRow(g0, graph, graphT[id], V, mean, rank, id);
    }

    lemma Alive(r: int)
      requires Valid() && 0 <= r < |flag| && !flag[r]
      ensures 0 <= V && |graph| == |graphT| == |mean| == |order| == V + |flag| && V + r !in dead
      ensures Tally(graph[V + r], V + r) == 0
    {
      hide Clean;
      RankedNotSelf(graph, V, rank, V + r);
    }

    /** Under every child of rule `r`, the rule gives way to its hosts. */
    method MergeChildren(r: int, ghost g0: Table)
      requires 0 <= r && 0 <= V + r < |graph| == |g0| && V + r !in dead && graph[V + r] == g0[V + r]
               && Tally(g0[V + r], V + r) == 0
      requires Exact(g0, graphT, dead) && Clean(g0, dead) && InRange(g0, |g0|)
      modifies this`graphT
      ensures Poured(old(graphT), graphT, V + r, g0[V + r])
    {
      ChildrenBegin(graphT, graph[V + r], V + r);
      hide Poured, Exact, Clean;
      var id, j := V + r, 0;
      ghost var t0 := graphT;
      PouredSizes(t0, graphT, id, graph[id][..0]);
      while j < |graph[id]|
        invariant 0 <= j <= |graph[id]| && |graphT| == |t0| == |graph| && graphT[id] == t0[id]
        invariant Poured(t0, graphT, id, graph[id][..j])
      {
        ChildrenNext(g0, t0, dead, graphT, id, j);
        graphT := PourInto(graphT, id, graph[id][j]);
        PouredSizes(t0, graphT, id, graph[id][..j + 1]);
        j := j + 1;
      }
      assert graph[id][..j] == graph[id];
    }

    /** Inlines rule `r` and flags it. */
    method MergeRule(r: int)
      requires Valid() && 0 <= r < |flag| && !flag[r]
      modifies this
      ensures Valid() && Same(old(graph), graph, mean) && 0 <= V && |order| == |graph| == old(|graph|)
      ensures flag == old(flag)[r := true] && DeepKept(old(graph), graph, order, order[V + r])
      ensures Stage(graph, dead) == Without(old(Stage(graph, dead)), V + r) && NotThinner(old(graph), graph, mean)
    {
      hide Poured, Same, Solves, Exact, Ranked, Steps, Clean, Embedded, InlineRule, NotThinner;
      ghost var g0, t0 := graph, graphT;
      var id := V + r;
      Alive(r);
      RankedRange(graph, V, rank);
      MergeHosts(r);
      MergeChildren(r, g0);
      Inlined(g0, t0, dead, graph, graphT, id);
      EmbeddedAll(g0, t0, dead, graph, id);
      InlineNotThinner(g0, V, dead, id, mean);
      SameSolves(g0, graph, V, mean);
      dead := dead + {id};
      flag := flag[r := true];
    }

    /** Inlines all rules of level `d`, none of which is flagged. */
    method MergeLevel(d: int)
      requires Valid() && 0 <= V && |order| == |graph| && forall k :: 0 <= k < |flag| && order[V + k] == d ==> !flag[k]
      modifies this
      ensures Valid() && Same(old(graph), graph, mean) && |graph| == old(|graph|) && |flag| == old(|flag|)
      ensures DeepKept(old(graph), graph, order, d)
      ensures forall k :: 0 <= k < |flag| ==> flag[k] == (order[V + k] == d || old(flag)[k])
      ensures Stage(graph, dead) == InlineLevel(old(Stage(graph, dead)), V, order, d, |flag|)
      ensures NotThinner(old(graph), graph, mean)
    {
      hide Solves, Exact, Ranked, Steps, Clean, Settled, Flatten, Without, Solid;
      SameSelf(graph, V, mean);
      var r := 0;
      while r < |flag|
        invariant 0 <= r <= |flag| == old(|flag|) && Valid() && |order| == |graph| == old(|graph|)
        invariant Same(old(graph), graph, mean) && DeepKept(old(graph), graph, order, d)
        invariant forall k :: 0 <= k < |flag| ==> flag[k] == ((k < r && order[V + k] == d) || old(flag)[k])
        invariant Stage(graph, dead) == InlineLevel(old(Stage(graph, dead)), V, order, d, r)
        invariant NotThinner(old(graph), graph, mean)
      {
        if order[V + r] == d {
          MergeRule(r);
        }
        r := r + 1;
      }
    }

    /** The levels below `m` and their sizes are as `counts` says; those from `m + 1` on are finished. */
    ghost predicate Progress(counts: seq<int>, m: int, low: int, least: int)
      reads this
    {
      && Valid() && 0 <= V && |order| == |graph| == V + |flag| && m < |counts|
      && (forall d :: 0 <= d <= m ==> counts[d] == LevelSize(graph, V, order, flag, d, |flag|))
      && (forall k :: 0 <= k < |flag| && order[V + k] <= m ==> !flag[k])
      && (forall d :: m < d && low <= d ==> AllOrEnough(graph, V, order, flag, d, least))
    }

    /** Level `m` is big enough. */
    lemma LevelStays(counts: seq<int>, m: int, low: int, least: int)
      requires Progress(counts, m, low, least) && 0 <= m && counts[m] >= least
      ensures Progress(counts, m - 1, low, least)
    {
      hide Valid;
      assert AllOrEnough(graph, V, order, flag, m, least);
      forall d | m - 1 < d && low <= d ensures AllOrEnough(graph, V, order, flag, d, least) {
      }
    }

    /** The sizes of the levels up to `m`, counted again. */
    method Recount(counts0: seq<int>, m: int) returns (counts: seq<int>)
      requires |graph| == |order| == V + |flag| && 0 <= V && -1 <= m < |counts0|
      requires forall s :: 0 <= s < |order| ==> 0 <= order[s] < |counts0|
      ensures |counts| == |counts0|
      ensures forall d :: 0 <= d <= m ==> counts[d] == LevelSize(graph, V, order, flag, d, |flag|)
    {
      counts := counts0;
      var i := 0;
      while i <= m
        invariant 0 <= i <= m + 1 && |counts| == |counts0| && forall d :: 0 <= d < i ==> counts[d] == 0
      {
        counts := counts[i := 0];
        i := i + 1;
      }
      var k := 0;
      while k < |flag|
        invariant 0 <= k <= |flag| && |counts| == |counts0|
        invariant forall d :: 0 <= d <= m ==> counts[d] == LevelSize(graph, V, order, flag, d, k)
      {
        var d := order[V + k];
        counts := counts[d := counts[d] + if flag[k] then 0 else |graph[V + k]|];
        k := k + 1;
      }
    }

    /** Level `m` has been inlined. */
    lemma LevelGone(g0: Table, flag0: seq<bool>, counts: seq<int>, m: int, low: int, least: int)
      requires Valid() && 0 <= V && |order| == |graph| == |g0| == V + |flag| && |flag0| == |flag| && 0 <= m <= |counts|
      requires DeepKept(g0, graph, order, m)
      requires forall k :: 0 <= k < |flag| ==> flag[k] == (order[V + k] == m || flag0[k])
      requires forall k :: 0 <= k < |flag| && order[V + k] <= m ==> !flag0[k]
      requires forall d :: m < d && low <= d ==> AllOrEnough(g0, V, order, flag0, d, least)
      requires forall d :: 0 <= d <= m - 1 ==> counts[d] == LevelSize(graph, V, order, flag, d, |flag|)
      ensures Progress(counts, m - 1, low, least)
    {
      hide Valid;
      forall d | m - 1 < d && low <= d ensures AllOrEnough(graph, V, order, flag, d, least) {
        if d > m {
          LevelSizeKept(g0, V, order, flag0, graph, flag, d, |flag|);
          assert AllOrEnough(g0, V, order, flag0, d, least);
        }
      }
    }

    /** From level `depth` up to level `low`. */
    method Run(depth: int, low: int, least: int)
      requires Valid() && 0 <= V && |order| == |graph| && 0 <= low && 0 <= depth
      requires forall k :: 0 <= k < |flag| ==> !flag[k]
      requires forall s :: 0 <= s < |order| ==> 0 <= order[s] <= depth
      modifies this
      ensures Valid() && Same(old(graph), graph, mean) && |graph| == old(|graph|) && |flag| == old(|flag|)
      ensures Trimmed(graph, V, order, flag, low, least)
      ensures Stage(graph, dead) == Sunk(old(graph), V, order, least, depth, low - 1)
      ensures Spared(old(graph), V, order, mean, flag, low, least)
    {
      hide Solves, Exact, Ranked, Steps, Clean, Settled, Flatten, AllOrEnough, DeepKept, LevelSize, LevelEdges,
           InlineLevel, LevelSolid, Solid;
      SameSelf(graph, V, mean);
      NoneDead();
      var counts := seq(depth + 1, _ => 0);
      counts := Recount(counts, depth);
      var m := depth;
      NoneDeeper(depth, low, least);
      while m >= low
        invariant -1 <= m <= depth && (low - 1 <= m || m == depth) && |counts| == depth + 1
        invariant Progress(counts, m, low, least)
        invariant |graph| == old(|graph|) && |flag| == old(|flag|) && Same(old(graph), graph, mean)
        invariant forall k :: 0 <= k < |flag| && order[V + k] < low ==> !flag[k]
        invariant Stage(graph, dead) == Sunk(old(graph), V, order, least, depth, m)
        invariant NotThinner(old(graph), graph, mean) && Spared(old(graph), V, order, mean, flag, low, least)
      {
        LevelEdgesSize(graph, V, order, flag, m, |flag|);
        LevelSolidEdges(old(graph), graph, V, order, mean, m, |flag|);
        if counts[m] >= least {
          LevelStays(counts, m, low, least);
        } else {
          ghost var g0, flag0 := graph, flag;
          MergeLevel(m);
          counts := Recount(counts, m - 1);
          LevelGone(g0, flag0, counts, m, low, least);
        }
        m := m - 1;
      }
    }

    lemma NoneDead()
      requires Valid() && forall k :: 0 <= k < |flag| ==> !flag[k]
      ensures dead == {}
    {
      hide Ranked, Solves, Steps, Exact, Clean;
      forall s | s in dead ensures flag[s - V] {
        assert flag[s - V] <==> V + (s - V) in dead;
      }
    }

    lemma NoneDeeper(depth: int, low: int, least: int)
      requires Valid() && 0 <= V && |order| == |graph| == V + |flag|
      requires forall s :: 0 <= s < |order| ==> 0 <= order[s] <= depth
      ensures forall d :: depth < d && low <= d ==> AllOrEnough(graph, V, order, flag, d, least)
    {
      hide Valid;
    }

    /** The pass has done its work. */
    lemma Outcome(g: Table)
      requires Valid() && Same(g, graph, mean) && Solves(g, V, mean)
      ensures 0 <= V && |mean| == |rank| == |graph| == |g| == V + |flag| && InRange(graph, |graph|) && InRange(g, |g|)
      ensures var g', m' := Live(MapAll(graph, flag, V), flag, V, |graph|), Live(mean, flag, V, |graph|);
              && |g'| == V + Kept(flag, |flag|) && Ranked(g', V, Live(rank, flag, V, |graph|)) && Solves(g', V, m')
              && forall v :: 0 <= v < V ==> (RowOf(g, v); RowOf(g', v); Flatten(g'[v], m') == Flatten(g[v], mean))
    {
      hide Flatten, Live, MapAll, Kin, Exact, Kept, Steps;
      RankedRange(graph, V, rank);
      CleanCloses(graph, flag, V, dead);
      ShrinkSolves(graph, flag, V, mean, rank);
      var g', m' := Live(MapAll(graph, flag, V), flag, V, |graph|), Live(mean, flag, V, |graph|);
      forall v | 0 <= v < V
        ensures RowIn(g[v], |mean|) && RowIn(g'[v], |m'|) && Flatten(g'[v], m') == Flatten(g[v], mean)
      {
        OutcomeVertex(g, v);
      }
    }

    lemma FlagsDead()
      requires Valid()
      ensures forall k :: 0 <= k < |flag| ==> (flag[k] <==> V + k in dead)
    {
      hide Ranked, Solves, Steps, Exact, Clean;
    }

    lemma OutcomeVertex(g: Table, v: int)
      requires Valid() && Same(g, graph, mean) && 0 <= v < V
      ensures |graph| == |mean| == V + |flag| && InRange(graph, |graph|) && RowIn(g[v], |mean|)
      ensures var g', m' := Live(MapAll(graph, flag, V), flag, V, |graph|), Live(mean, flag, V, |graph|);
              v < |g'| && RowIn(g'[v], |m'|) && Flatten(g'[v], m') == Flatten(g[v], mean)
    {
      hide Flatten, Live, MapAll, Exact, Steps, Solves;
      RankedRange(graph, V, rank);
      CleanCloses(graph, flag, V, dead);
      RowOf(g, v);
      RowOf(graph, v);
      ShrinkKin(graph, flag, V, mean, v);
    }
  }

  /**
   The whole pass.  `flag` marks the rules that were inlined and `rows` are the rows before the others were numbered
   anew; `m'` and `h'` are the meanings and ranks of the result.
   */
  method DepthFilterCsr(vlist: seq<int>, elist: seq<int>, V: int, ruleCount: int, low: int, least: int,
                        ghost h: seq<nat>)
    returns (v: seq<int>, e: seq<int>, count: int, ghost order: seq<int>, ghost top: int, ghost flag: seq<bool>,
             ghost rows: Table, ghost m': Table, ghost h': seq<nat>)
    requires Csr(vlist, elist) && Readable(vlist, elist) && 0 <= V && 0 <= ruleCount && |vlist| == V + ruleCount + 1
             && vlist[V + ruleCount] == |elist|
    requires var g := Rows(vlist, elist, V + ruleCount); Ranked(g, V, h) && Mentioned(g, V) && Shallow(g, V)
    requires 0 <= low
    ensures var g := Rows(vlist, elist, V + ruleCount);
            && Leveled(g, V, order) && |rows| == V + |flag| == |g| && Ranked(g, V, h)
            && Trimmed(rows, V, order, flag, low, least) && Spared(g, V, order, Meaning(g, V, h), flag, low, least)
            && Same(g, rows, Meaning(g, V, h))
    ensures var g := Rows(vlist, elist, V + ruleCount);
            var s := Sunk(g, V, order, least, top, low - 1);
            && (forall x :: 0 <= x < |order| ==> order[x] <= top) && rows == s.rows
            && forall k :: 0 <= k < |flag| ==> (flag[k] <==> V + k in s.dead)
    ensures Csr(v, e) && v[|v| - 1] == |e| && InRange(rows, |rows|) && |v| == V + count + 1
    ensures count == Kept(flag, |flag|)
    ensures var g, g' := Rows(vlist, elist, V + ruleCount), Cells(v, e)[..V + count];
            && g' == Live(MapAll(rows, flag, V), flag, V, |rows|) && Ranked(g', V, h') && Solves(g', V, m')
            && forall x :: 0 <= x < V ==>
                 (RowOf(g, x); RowOf(g', x); Flatten(g'[x], m') == Flatten(g[x], Meaning(g, V, h)))
  {
    hide Readable, Solves, Ranked, Meaning, Flatten, Csr, Mentions, Leveled, Exact, Clean, Settled, InRange, Same,
         Live, MapAll, Kept, Steps, Trimmed, Mentioned, Shallow, Spared, Sunk;
    RankedRange(Rows(vlist, elist, V + ruleCount), V, h);
    var levels, depth := VertexOrder(vlist, elist, V, ruleCount);
    var g := Load(vlist, elist, V + ruleCount);
    order := levels;
    LeveledSizes(g, V, levels);
    var pass := new DepthFilter(g, V, levels, h);
    MeaningSolves(g, V, h);
    pass.Run(depth, low, least);
    pass.Outcome(g);
    var ids;
    ids, count := NewIds(pass.flag, V);
    v, e := Write(pass.graph, ids, pass.flag, V);
    pass.FlagsDead();
    flag, rows, top := pass.flag, pass.graph, depth;
    m', h' := Live(pass.mean, flag, V, |rows|), Live(pass.rank, flag, V, |rows|);
    LastCell(v, e, Live(MapAll(rows, flag, V), flag, V, |rows|));
  }

  lemma LeveledSizes(g: Table, V: int, order: seq<int>)
    requires Leveled(g, V, order)
    ensures 0 <= V <= |g| == |order|
  {
  }
}
