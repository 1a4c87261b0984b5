/**
 The filter pass: rules that save too little are inlined.

 A rule is worth keeping by its score, a product of how often it is referred to and of how long its row is.  Inlining
 a rule makes the rows above it longer and the rules below it more frequent, so scores only grow: a rule that was
 passed over as worth keeping stays so, and when the pass ends, the flags mark exactly the rules that are gone.
 */
module FilterPass {
  import opened RuleGraph
  import opened Inlining
  import opened CsrRows
  import opened RuleTables
  import opened MentionCounts

  predicate Judge(len: int, freq: int, threshold: int) {
    (freq - 1) * (len - 1) - 1 <= threshold
  }

  /** Scores grow with length and frequency. */
  lemma JudgeGrows(len: int, freq: int, len': int, freq': int, threshold: int)
    requires 1 <= len <= len' && 1 <= freq <= freq'
    ensures Judge(len', freq', threshold) ==> Judge(len, freq, threshold)
  {
    assert (freq - 1) * (len - 1) <= (freq' - 1) * (len - 1) <= (freq' - 1) * (len' - 1);
  }

  /** The score of a rule is the number of edges that inlining it costs. */
  lemma JudgeIsCost(s: Stage, id: int, threshold: int)
    requires 0 <= id < |s.rows| && id !in s.dead && Tally(s.rows[id], id) == 0
    ensures Judge(|s.rows[id]|, LiveMentions(s.rows, s.dead, id, |s.rows|), threshold) <==>
              Edges(Without(s, id)) - Edges(s) <= threshold
  {
    hide Edges, Without;
    InlineCost(s, id);
    var f, l := LiveMentions(s.rows, s.dead, id, |s.rows|), |s.rows[id]|;
    assert (f - 1) * (l - 1) == f * (l - 1) - (l - 1);
  }

  /** Inlining rule `k` in the graph `g` costs more than `threshold` edges. */
  ghost predicate Costly(g: Table, V: int, threshold: int, k: int)
    requires 0 <= V && 0 <= k < |g| - V
  {
    var s := Stage(g, {});
    Edges(Without(s, V + k)) - Edges(s) > threshold
  }

  /** The graph `g'` is what is left at the stage `s`, with the rules numbered anew. */
  ghost predicate LeftOver(s: Stage, V: int, g': Table) {
    exists flag :: Marks(s, V, flag) && g' == Live(MapAll(s.rows, flag, V), flag, V, |s.rows|)
  }

  /** Exactly the rules that have been inlined are flagged. */
  ghost predicate Marks(s: Stage, V: int, flag: seq<bool>) {
    && |s.rows| == V + |flag| && InRange(s.rows, |s.rows|)
    && forall k :: 0 <= k < |flag| ==> (flag[k] <==> V + k in s.dead)
  }

  /** The first `n` rules have had their turn: each was inlined exactly when that cost at most `threshold` edges. */
  ghost function Pruned(g: Table, V: int, threshold: int, n: int): (s: Stage)
    requires 0 <= V && 0 <= n <= |g| - V
    ensures |s.rows| == |g|
  {
    if n == 0 then Stage(g, {}) else
      var s := Pruned(g, V, threshold, n - 1);
      var s' := Without(s, V + n - 1);
      if Edges(s') - Edges(s) <= threshold then s' else s
  }

  /** Length, frequency and flag of rule `k` are those of its row and of its mentions; it has both. */
  ghost predicate ScoredAt(g: Table, t: Table, V: int, len: seq<int>, freq: seq<int>, flag: seq<bool>,
                           threshold: int, k: int)
    requires 0 <= V && |t| == |g| == V + |flag| && |len| == |freq| == |flag| && 0 <= k < |flag|
  {
    len[k] == |g[V + k]| >= 1 && freq[k] == |t[V + k]| >= 1 && (flag[k] <==> Judge(len[k], freq[k], threshold))
  }

  /** The scores of the live rules are right. */
  ghost predicate Scored(g: Table, t: Table, V: int, dead: set<int>, len: seq<int>, freq: seq<int>, flag: seq<bool>,
                         threshold: int) {
    && 0 <= V && |t| == |g| == V + |flag| && |len| == |freq| == |flag|
    && forall k :: 0 <= k < |flag| && V + k !in dead ==> ScoredAt(g, t, V, len, freq, flag, threshold, k)
  }

  /** Up to `i`, exactly the dead rules are flagged. */
  ghost predicate Settled(flag: seq<bool>, V: int, dead: set<int>, i: int) {
    && i <= |flag| && (forall k :: 0 <= k < i ==> (flag[k] <==> V + k in dead))
    && forall s :: s in dead ==> V <= s < V + i
  }

  /** A rule that was worth keeping still is. */
  ghost predicate Falls(flag: seq<bool>, flag': seq<bool>) {
    |flag'| == |flag| && forall k :: 0 <= k < |flag| && flag'[k] ==> flag[k]
  }

  lemma LongerRow(g: Table, t: Table, V: int, dead: set<int>, len: seq<int>, freq: seq<int>, flag: seq<bool>,
                  threshold: int, i: int, r: int, row: seq<int>)
    requires Scored(g, t, V, dead, len, freq, flag, threshold) && Settled(flag, V, dead, i)
    requires 0 <= r < |g| && r !in dead && |row| >= |g[r]|
    ensures r < V ==> Scored(g[r := row], t, V, dead, len, freq, flag, threshold)
    ensures r >= V ==> var k := r - V;
              var flag' := flag[k := Judge(|row|, freq[k], threshold)];
              Scored(g[r := row], t, V, dead, len[k := |row|], freq, flag', threshold) && Settled(flag', V, dead, i)
              && Falls(flag, flag')
  {
    var g' := g[r := row];
    if r >= V {
      assert ScoredAt(g, t, V, len, freq, flag, threshold, r - V);
      JudgeGrows(len[r - V], freq[r - V], |row|, freq[r - V], threshold);
      var len', flag' := len[r - V := |row|], flag[r - V := Judge(|row|, freq[r - V], threshold)];
      forall k | 0 <= k < |flag| && V + k !in dead ensures ScoredAt(g', t, V, len', freq, flag', threshold, k) {
        assert ScoredAt(g, t, V, len, freq, flag, threshold, k);
      }
    } else {
      forall k | 0 <= k < |flag| && V + k !in dead ensures ScoredAt(g', t, V, len, freq, flag, threshold, k) {
        assert ScoredAt(g, t, V, len, freq, flag, threshold, k);
      }
    }
  }

  lemma MoreMentions(g: Table, t: Table, V: int, dead: set<int>, len: seq<int>, freq: seq<int>, flag: seq<bool>,
                     threshold: int, i: int, c: int, row: seq<int>)
    requires Scored(g, t, V, dead, len, freq, flag, threshold) && Settled(flag, V, dead, i)
    requires 0 <= c < |g| && c !in dead && |row| >= |t[c]|
    ensures c < V ==> Scored(g, t[c := row], V, dead, len, freq, flag, threshold)
    ensures c >= V ==> var k := c - V;
              var flag' := flag[k := Judge(len[k], |row|, threshold)];
              Scored(g, t[c := row], V, dead, len, freq[k := |row|], flag', threshold) && Settled(flag', V, dead, i)
              && Falls(flag, flag')
  {
    var t' := t[c := row];
    if c >= V {
      assert ScoredAt(g, t, V, len, freq, flag, threshold, c - V);
      JudgeGrows(len[c - V], freq[c - V], len[c - V], |row|, threshold);
      var freq', flag' := freq[c - V := |row|], flag[c - V := Judge(len[c - V], |row|, threshold)];
      forall k | 0 <= k < |flag| && V + k !in dead ensures ScoredAt(g, t', V, len, freq', flag', threshold, k) {
        assert ScoredAt(g, t, V, len, freq, flag, threshold, k);
      }
    } else {
      forall k | 0 <= k < |flag| && V + k !in dead ensures ScoredAt(g, t', V, len, freq, flag, threshold, k) {
        assert ScoredAt(g, t, V, len, freq, flag, threshold, k);
      }
    }
  }

  /** The rules are not circular, and each of them has a row and a mention. */
  ghost predicate Sane(g: Table, V: int, h: seq<nat>) {
    Ranked(g, V, h) && forall c :: V <= c < |g| ==> |g[c]| >= 1 && Mentions(g, c) >= 1
  }

  lemma {:induction false} AllMentions(g: Table, c: int, n: int)
    requires 0 <= n <= |g|
    ensures LiveMentions(g, {}, c, n) == Mentions(g[..n], c)
  {
    if n > 0 {
      AllMentions(g, c, n - 1);
      assert g[..n] == g[..n - 1] + [g[n - 1]];
      MentionsMore(g[..n - 1], g[n - 1], c);
    }
  }

  lemma ExactSizes(g: Table, t: Table)
    requires Exact(g, t, {})
    ensures |t| == |g| && forall c :: 0 <= c < |g| ==> |t[c]| == Mentions(g, c)
  {
    forall c | 0 <= c < |g| ensures |t[c]| == Mentions(g, c) {
      SizeIsMentions(g, t, {}, c);
      AllMentions(g, c, |g|);
      assert g[..|g|] == g;
    }
  }

  lemma CleanCloses(g: Table, flag: seq<bool>, V: int, dead: set<int>)
    requires Clean(g, dead) && InRange(g, |g|) && 0 <= V && |g| == V + |flag| && Settled(flag, V, dead, |flag|)
    ensures Closed(g, flag, V) && forall r :: 0 <= r < |g| ==> (Dropped(flag, V, r) <==> r in dead)
  {
    forall r | 0 <= r < |g| ensures Dropped(flag, V, r) <==> r in dead {
      if r >= V {
        assert flag[r - V] <==> V + (r - V) in dead;
      }
    }
    forall r, i | 0 <= r < |g| && r !in dead && 0 <= i < |g[r]| ensures !Dropped(flag, V, g[r][i]) {
      TallyIn(g[r], g[r][i]);
    }
  }

  /** Lengths, frequencies and flags of all rules. */
  method InitInfo(g: Table, t: Table, V: int, threshold: int) returns (len: seq<int>, freq: seq<int>, flag: seq<bool>)
    requires 0 <= V <= |g| == |t| && forall c :: V <= c < |g| ==> |g[c]| >= 1 && |t[c]| >= 1
    ensures |flag| == |g| - V && Scored(g, t, V, {}, len, freq, flag, threshold)
  {
    hide Judge;
    len, freq, flag := [], [], [];
    var i := 0;
    while i < |g| - V
      invariant 0 <= i <= |g| - V && |len| == |freq| == |flag| == i
      invariant forall k :: 0 <= k < i ==>
        len[k] == |g[V + k]| && freq[k] == |t[V + k]| && (flag[k] <==> Judge(len[k], freq[k], threshold))
    {
      freq := freq + [|t[i + V]|];
      len := len + [|g[i + V]|];
      flag := flag + [Judge(len[i], freq[i], threshold)];
      i := i + 1;
    }
  }

  class Filter {
    var graph: Table
    var graphT: Table
    var len: seq<int>
    var freq: seq<int>
    var flag: seq<bool>
    const V: int
    const threshold: int
    ghost var dead: set<int>
    ghost const mean: Table
    ghost const rank: seq<nat>

    /** The tables of a graph, with the scores of all rules. */
    constructor (g: Table, V: int, threshold: int, ghost h: seq<nat>)
      requires 0 <= V <= |g| && Sane(g, V, h)
      ensures Valid(0) && graph == g && this.V == V && this.threshold == threshold && dead == {}
      ensures mean == Meaning(g, V, h) && rank == h && |flag| == |g| - V
    {
      hide Solves, Exact, Mentions, Scored, Ranked;
      RankedRange(g, V, h);
      var t := Transpose(g);
      ExactSizes(g, t);
      var l, f, b := InitInfo(g, t, V, threshold);
      graph, graphT, this.V, this.threshold := g, t, V, threshold;
      len, freq, flag := l, f, b;
      dead, mean, rank := {}, Meaning(g, V, h), h;
      MeaningSolves(g, V, h);
    }

    /** Before rule `i` has its turn. */
    ghost predicate Valid(i: int)
      reads this
    {
      && 0 <= i && Ranked(graph, V, rank) && Solves(graph, V, mean)
      && Exact(graph, graphT, dead) && Clean(graph, dead)
      && Scored(graph, graphT, V, dead, len, freq, flag, threshold) && Settled(flag, V, dead, i)
    }

    /** Row `node` takes in the row of rule `i`. */
    method TakeIn(i: int, node: int)
      requires 0 <= i && Scored(graph, graphT, V, dead, len, freq, flag, threshold) && Settled(flag, V, dead, i + 1)
      requires V + i in dead && |graph[V + i]| >= 1
      requires 0 <= node < |graph| && node !in dead && Find(graph[node], V + i) < |graph[node]|
      modifies this`graph, this`len, this`flag
      ensures Scored(graph, graphT, V, dead, len, freq, flag, threshold) && Settled(flag, V, dead, i + 1)
      ensures graph == PourInto(old(graph), V + i, node) && Falls(old(flag), flag)
    {
      var id := V + i;
      ghost var row := PourInto(graph, id, node)[node];
      LongerRow(graph, graphT, V, dead, len, freq, flag, threshold, i + 1, node, row);
      assert node >= V ==> ScoredAt(graph, graphT, V, len, freq, flag, threshold, node - V);
      graph := PourInto(graph, id, node);
      if node >= V {
        len := len[node - V := len[node - V] + |graph[id]| - 1];
        flag := flag[node - V := Judge(len[node - V], freq[node - V], threshold)];
      }
    }

    /** The mention of rule `i` under `child` gives way to the mentions of rule `i`. */
    method PassOn(i: int, child: int)
      requires 0 <= i && Scored(graph, graphT, V, dead, len, freq, flag, threshold) && Settled(flag, V, dead, i + 1)
      requires V + i in dead && |graphT[V + i]| >= 1
      requires 0 <= child < |graph| && child !in dead && Find(graphT[child], V + i) < |graphT[child]|
      modifies this`graphT, this`freq, this`flag
      ensures Scored(graph, graphT, V, dead, len, freq, flag, threshold) && Settled(flag, V, dead, i + 1)
      ensures graphT == PourInto(old(graphT), V + i, child) && Falls(old(flag), flag)
    {
      var id := V + i;
      ghost var row := PourInto(graphT, id, child)[child];
      MoreMentions(graph, graphT, V, dead, len, freq, flag, threshold, i + 1, child, row);
      graphT := PourInto(graphT, id, child);
      if child >= V {
        freq := freq[child - V := |graphT[child]|];
        flag := flag[child - V := Judge(len[child - V], freq[child - V], threshold)];
      }
    }

    /** The first loop of an inlining: every host of rule `i` takes in its row. */
    method MergeHosts(i: int, ghost dead0: set<int>)
      requires 0 <= i < |flag| && 0 <= V && |graph| == |graphT| == V + |flag| && V + i !in dead0
      requires dead == dead0 + {V + i}
      requires Ranked(graph, V, rank) && Solves(graph, V, mean) && Exact(graph, graphT, dead0)
      requires Scored(graph, graphT, V, dead, len, freq, flag, threshold) && Settled(flag, V, dead, i + 1)
      requires |graph[V + i]| >= 1
      modifies this`graph, this`len, this`flag
      ensures |graph| == old(|graph|) && graph[V + i] == old(graph)[V + i]
      ensures Poured(old(graph), graph, V + i, graphT[V + i]) && Same(old(graph), graph, mean) && Ranked(graph, V, rank)
      ensures Embedded(old(graph), graph, V + i, graphT[V + i]) && Falls(old(flag), flag)
      ensures Scored(graph, graphT, V, dead, len, freq, flag, threshold) && Settled(flag, V, dead, i + 1)
    {
      hide Poured, Same, Solves, Scored, Settled, Exact, Ranked, HostsSoFar, Embedded;
      var id, j := V + i, 0;
      ghost var g0 := graph;
      HostsBegin(graph, graphT, V, mean, rank, id);
      while j < |graphT[id]|
        invariant 0 <= j <= |graphT[id]| && |graph| == |g0| == |graphT| && graph[id] == g0[id]
        invariant HostsSoFar(g0, graph, graphT[id][..j], V, mean, rank, id) && Falls(old(flag), flag)
        invariant Scored(graph, graphT, V, dead, len, freq, flag, threshold) && Settled(flag, V, dead, i + 1)
      {
        HostsNext(g0, graphT, dead0, graph, V, mean, rank, id, j);
        TakeIn(i, graphT[id][j]);
        HostsRow(g0, graph, graphT[id][..j + 1], V, mean, rank, id);
        j := j + 1;
      }
      assert graphT[id][..j] == graphT[id];
      HostsRow(g0, graph, graphT[id], V, mean, rank, id);
    }

    /** The second loop: under every child of rule `i`, the rule gives way to its hosts. */
    method MergeChildren(i: int, ghost dead0: set<int>, ghost g0: Table)
      requires 0 <= i < |flag| && 0 <= V && |graph| == V + |flag| == |g0| && V + i !in dead0 && dead == dead0 + {V + i}
      requires graph[V + i] == g0[V + i] && Tally(g0[V + i], V + i) == 0
      requires Exact(g0, graphT, dead0) && Clean(g0, dead0) && InRange(g0, |g0|)
      requires Scored(graph, graphT, V, dead, len, freq, flag, threshold) && Settled(flag, V, dead, i + 1)
      requires |graphT[V + i]| >= 1
      modifies this`graphT, this`freq, this`flag
      ensures Poured(old(graphT), graphT, V + i, g0[V + i]) && Falls(old(flag), flag)
      ensures Scored(graph, graphT, V, dead, len, freq, flag, threshold) && Settled(flag, V, dead, i + 1)
    {
      ChildrenBegin(graphT, graph[V + i], V + i);
      hide Scored, Settled, Exact, Clean, PourInto, Poured;
      var id, j := V + i, 0;
      ghost var t0 := graphT;
      PouredSizes(t0, graphT, id, graph[id][..0]);
      while j < |graph[id]|
        invariant 0 <= j <= |graph[id]| && |graphT| == |t0| == |graph| && graphT[id] == t0[id]
        invariant Poured(t0, graphT, id, graph[id][..j]) && Falls(old(flag), flag)
        invariant Scored(graph, graphT, V, dead, len, freq, flag, threshold) && Settled(flag, V, dead, i + 1)
      {
        ChildrenNext(g0, t0, dead0, graphT, id, j);
        PassOn(i, graph[id][j]);
        PouredSizes(t0, graphT, id, graph[id][..j + 1]);
        j := j + 1;
      }
      assert graph[id][..j] == graph[id];
    }

    /** Inlines rule `i`. */
    method MergeRule(i: int)
      requires Valid(i) && i < |flag| && flag[i]
      modifies this
      ensures Valid(i + 1) && dead == old(dead) + {V + i} && Same(old(graph), graph, mean) && |flag| == old(|flag|)
      ensures 0 <= V && V + i < old(|graph|) && Falls(old(flag), flag)
      ensures Stage(graph, dead) == Without(old(Stage(graph, dead)), V + i)
    {
      hide Poured, Same, Solves, Exact, Clean, ScoredAt, Embedded, InlineRule;
      ghost var dead0, g0, t0 := dead, graph, graphT;
      var id := V + i;
      Alive(i);
      dead := dead + {id};
      MergeHosts(i, dead0);
      MergeChildren(i, dead0, g0);
      Inlined(g0, t0, dead0, graph, graphT, id);
      EmbeddedAll(g0, t0, dead0, graph, id);
      SameSolves(g0, graph, V, mean);
    }

    lemma Alive(i: int)
      requires Valid(i) && i < |flag|
      ensures V + i !in dead && |graph| == |graphT| == V + |flag| && |graph[V + i]| >= 1 && |graphT[V + i]| >= 1
      ensures Tally(graph[V + i], V + i) == 0 && InRange(graph, |graph|)
    {
      hide Solves, Exact, Clean, Judge;
      RankedNotSelf(graph, V, rank, V + i);
      assert ScoredAt(graph, graphT, V, len, freq, flag, threshold, i);
    }

    /** The flag of a rule that has not had its turn says what inlining it costs. */
    lemma FlagIsCost(i: int, k: int)
      requires Valid(i) && i <= k < |flag|
      ensures 0 <= V && V + k < |graph| && V + k !in dead
      ensures var s := Stage(graph, dead); flag[k] <==> Edges(Without(s, V + k)) - Edges(s) <= threshold
    {
      hide Solves, Clean, Edges, Without, Judge;
      assert V + k !in dead && ScoredAt(graph, graphT, V, len, freq, flag, threshold, k);
      RankedNotSelf(graph, V, rank, V + k);
      SizeIsMentions(graph, graphT, dead, V + k);
      JudgeIsCost(Stage(graph, dead), V + k, threshold);
    }

    /** Rules that cost too much in the given graph are not flagged. */
    lemma CostlyUnflagged()
      requires Valid(0)
      ensures dead == {} && 0 <= V && |graph| == V + |flag|
      ensures forall k :: 0 <= k < |flag| && Costly(graph, V, threshold, k) ==> !flag[k]
    {
      hide Solves, Clean, Edges, Without, Ranked, Exact, ScoredAt;
      assert forall s :: s !in dead;
      assert dead == {};
      forall k | 0 <= k < |flag| && Costly(graph, V, threshold, k) ensures !flag[k] {
        FlagIsCost(0, k);
      }
    }

    /** The pass over all rules. */
    method Run()
      requires Valid(0)
      modifies this
      ensures Valid(|flag|) && Same(old(graph), graph, mean) && |flag| == old(|flag|)
      ensures 0 <= V && |flag| == old(|graph|) - V && Stage(graph, dead) == Pruned(old(graph), V, threshold, |flag|)
      ensures Falls(old(flag), flag)
      ensures forall k :: 0 <= k < |flag| ==> (flag[k] <==> V + k in dead)
      ensures forall k :: 0 <= k < |flag| && !flag[k] ==> !Judge(|graph[V + k]|, |graphT[V + k]|, threshold)
    {
      hide Poured, Solves, Exact, Clean, ScoredAt, Ranked, Flatten, Without, Edges;
      var i := 0;
      SameSelf(graph, V, mean);
      CostlyUnflagged();
      while i < |flag|
        invariant 0 <= i <= |flag| == old(|flag|) && Valid(i) && Same(old(graph), graph, mean) && Falls(old(flag), flag)
        invariant 0 <= V && |flag| == old(|graph|) - V && Stage(graph, dead) == Pruned(old(graph), V, threshold, i)
      {
        FlagIsCost(i, i);
        if flag[i] {
          MergeRule(i);
        }
        i := i + 1;
      }
      KeptJudged();
    }

    lemma KeptJudged()
      requires Valid(|flag|)
      ensures forall k :: 0 <= k < |flag| && !flag[k] ==> !Judge(|graph[V + k]|, |graphT[V + k]|, threshold)
    {
      forall k | 0 <= k < |flag| && !flag[k] ensures !Judge(|graph[V + k]|, |graphT[V + k]|, threshold) {
        assert ScoredAt(graph, graphT, V, len, freq, flag, threshold, k);
      }
    }

    /** What is left once all rules have had their turn. */
    lemma Finished()
      requires Valid(|flag|)
      ensures |graph| == V + |flag| && 0 <= V && Closed(graph, flag, V)
      ensures forall c :: V <= c < |graph| && !Dropped(flag, V, c) ==> Kept1(c)
    {
      hide Solves, Exact, Ranked, ScoredAt, Mentions;
      RankedRange(graph, V, rank);
      CleanCloses(graph, flag, V, dead);
      forall c | V <= c < |graph| && !Dropped(flag, V, c) ensures Kept1(c) {
        KeptScore(c);
      }
    }

    /** Rule `c` was kept: it has a row, it is mentioned, and it is worth its place. */
    ghost predicate Kept1(c: int)
      requires 0 <= V <= c < |graph| == V + |flag| && Ranked(graph, V, rank)
      reads this
    {
      var g' := Live(MapAll(graph, flag, V), flag, V, |graph|);
      var k := Mentions(g', Renumber(flag, V, c));
      |graph[c]| >= 1 && k >= 1 && !Judge(|graph[c]|, k, threshold)
    }

    lemma KeptScore(c: int)
      requires Valid(|flag|) && V <= c < |graph| == V + |flag| && !Dropped(flag, V, c)
      ensures Kept1(c)
    {
      hide Solves, Mentions, Judge, Live;
      RankedRange(graph, V, rank);
      CleanCloses(graph, flag, V, dead);
      assert ScoredAt(graph, graphT, V, len, freq, flag, threshold, c - V);
      SizeIsMentions(graph, graphT, dead, c);
      MentionsLive(graph, flag, V, dead, c, |graph|);
    }

    /** The pass has done its work. */
    lemma Outcome(g: Table)
      requires Valid(|flag|) && Solves(g, V, mean) && Same(g, graph, mean)
      ensures 0 <= V && |mean| == |rank| == |graph| == V + |flag| && InRange(graph, |graph|)
      ensures var g' := Live(MapAll(graph, flag, V), flag, V, |graph|);
              |g'| == V + Kept(flag, |flag|) && Filtered(g, V, mean, g', Live(mean, flag, V, |graph|),
                                                         Live(rank, flag, V, |graph|), threshold)
    {
      hide Flatten, Live, MapAll, Kin, Judge, Mentions, Exact, Clean, Scored, Settled, Kept, Renumber;
      Finished();
      RankedRange(graph, V, rank);
      ShrinkSolves(graph, flag, V, mean, rank);
      var g', m' := Live(MapAll(graph, flag, V), flag, V, |graph|), Live(mean, flag, V, |graph|);
      forall c | V <= c < |g'|
        ensures |g'[c]| >= 1 && Mentions(g', c) >= 1 && !Judge(|g'[c]|, Mentions(g', c), threshold)
      {
        OutcomeRule(c);
      }
      forall v | 0 <= v < V
        ensures RowIn(g[v], |mean|) && RowIn(g'[v], |m'|) && Flatten(g'[v], m') == Flatten(g[v], mean)
      {
        OutcomeVertex(g, v);
      }
    }

    lemma OutcomeRule(c': int)
      requires Valid(|flag|) && V <= c' < V + Kept(flag, |flag|)
      ensures |graph| == V + |flag| && InRange(graph, |graph|)
      ensures var g' := Live(MapAll(graph, flag, V), flag, V, |graph|);
              |g'| == V + Kept(flag, |flag|) && |g'[c']| >= 1 && Mentions(g', c') >= 1
              && !Judge(|g'[c']|, Mentions(g', c'), threshold)
    {
      hide Live, Judge, Mentions, Exact, Clean, Scored, Settled, Kept, Solves;
      Finished();
      RankedRange(graph, V, rank);
      ShrinkSizes(graph, flag, V, graph);
      var c := Origin(flag, V, |graph|, c');
      assert Kept1(c);
      LiveAt(MapAll(graph, flag, V), flag, V, |graph|, c);
    }

    lemma OutcomeVertex(g: Table, v: int)
      requires Valid(|flag|) && Same(g, graph, mean) && 0 <= v < V
      ensures |graph| == |mean| == V + |flag| && InRange(graph, |graph|) && RowIn(g[v], |mean|)
      ensures var g', m' := Live(MapAll(graph, flag, V), flag, V, |graph|), Live(mean, flag, V, |graph|);
              v < |g'| && RowIn(g'[v], |m'|) && Flatten(g'[v], m') == Flatten(g[v], mean)
    {
      hide Flatten, Live, MapAll, Exact, Clean, Scored, Settled, Solves;
      Finished();
      RankedRange(graph, V, rank);
      RowOf(g, v);
      RowOf(graph, v);
      ShrinkKin(graph, flag, V, mean, v);
    }
  }

  /** A graph, left by the pass: sane, with the meaning it had, and with rules that are all worth their place. */
  ghost predicate Filtered(g: Table, V: int, m: Table, g': Table, m': Table, h': seq<nat>, threshold: int) {
    && |m| == |g| && 0 <= V <= |g| && InRange(g, |m|)
    && V <= |g'| && Sane(g', V, h') && Solves(g', V, m')
    && (forall v :: 0 <= v < V ==> (RowOf(g, v); RowOf(g', v); Flatten(g'[v], m') == Flatten(g[v], m)))
    && (forall c :: V <= c < |g'| ==> !Judge(|g'[c]|, Mentions(g', c), threshold))
  }

  /** The whole pass.  The ghost results are the meanings and ranks of what is left. */
  method FilterCsr(vlist: seq<int>, elist: seq<int>, V: int, ruleCount: int, threshold: int, ghost h: seq<nat>)
    returns (v: seq<int>, e: seq<int>, count: int, ghost m': Table, ghost h': seq<nat>)
    requires Readable(vlist, elist) && 0 <= V && 0 <= ruleCount && (V + ruleCount == 0 || V + ruleCount < |vlist|)
    requires Sane(Rows(vlist, elist, V + ruleCount), V, h)
    ensures Csr(v, e) && 0 <= count <= ruleCount && |v| == V + count + 1 && v[|v| - 1] == |e|
    ensures var g := Rows(vlist, elist, V + ruleCount);
            Filtered(g, V, Meaning(g, V, h), Cells(v, e)[..V + count], m', h', threshold)
    ensures var g := Rows(vlist, elist, V + ruleCount);
            var s := Pruned(g, V, threshold, ruleCount);
            && LeftOver(s, V, Cells(v, e)[..V + count])
            && forall k :: 0 <= k < ruleCount && Costly(g, V, threshold, k) ==> V + k !in s.dead
  {
    hide Readable, Solves, Ranked, Meaning, Flatten, Csr, Judge, Mentions, Closed, Exact, Clean, Scored, Settled,
         Filtered, InRange, Same, Live, MapAll, Kept, Pruned, Costly, LeftOver;
    var g := Load(vlist, elist, V + ruleCount);
    var filter := new Filter(g, V, threshold, h);
    MeaningSolves(g, V, h);
    filter.CostlyUnflagged();
    filter.Run();
    filter.Outcome(g);
    NowLeft(Stage(filter.graph, filter.dead), V, filter.flag);
    var ids;
    ids, count := NewIds(filter.flag, V);
    v, e := Write(filter.graph, ids, filter.flag, V);
    m' := Live(filter.mean, filter.flag, V, |filter.graph|);
    h' := Live(filter.rank, filter.flag, V, |filter.graph|);
    KeptAtMost(filter.flag);
    LastCell(v, e, Live(MapAll(filter.graph, filter.flag, V), filter.flag, V, |filter.graph|));
  }

  lemma NowLeft(s: Stage, V: int, flag: seq<bool>)
    requires Marks(s, V, flag)
    ensures LeftOver(s, V, Live(MapAll(s.rows, flag, V), flag, V, |s.rows|))
  {
    hide Live, MapAll;
  }

  lemma KeptAtMost(flag: seq<bool>)
    ensures 0 <= Kept(flag, |flag|) <= |flag|
  {
  }
}
