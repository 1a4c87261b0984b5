/**
 The level of every node: vertices have level 0, and the level of a rule is the length of the longest way down to it.

 Levels are found by peeling: a rule gets its level when the last row that mentions it has been scanned.
 */
module LevelOrder {
  import opened RuleGraph
  import opened RuleTables
  import opened MentionCounts
  import opened Inlining
  import opened CsrRows
  import opened FilterPass
  import Cards

  const INIT: int := 100000

  // ---------- levels and ways ----------

  /** Row `r` mentions `c`. */
  ghost predicate Edge(g: Table, r: int, c: int) {
    0 <= r < |g| && Tally(g[r], c) > 0
  }

  /** `order[c]` is one more than the largest level among the rows that mention `c`. */
  ghost predicate LevelAt(g: Table, order: seq<int>, c: int)
    requires |order| == |g| && 0 <= c < |g|
  {
    && (forall r {:trigger Edge(g, r, c)} :: Edge(g, r, c) ==> order[r] < order[c])
    && (exists r :: Edge(g, r, c) && order[r] == order[c] - 1)
  }

  ghost predicate Leveled(g: Table, V: int, order: seq<int>) {
    && 0 <= V <= |g| == |order|
    && (forall v :: 0 <= v < V ==> order[v] == 0)
    && (forall c :: V <= c < |g| ==> LevelAt(g, order, c))
  }

  /** A way from a vertex down to a rule, through rules. */
  ghost predicate Way(g: Table, V: int, p: seq<int>) {
    && |p| >= 1 && 0 <= p[0] < V <= |g|
    && (forall i :: 0 < i < |p| ==> V <= p[i] < |g|)
    && (forall i {:trigger Edge(g, p[i - 1], p[i])} :: 0 < i < |p| ==> Edge(g, p[i - 1], p[i]))
  }

  /** Rules, each of which mentions the next. */
  ghost predicate Trail(g: Table, V: int, p: seq<int>) {
    && (forall i :: 0 <= i < |p| ==> V <= p[i] < |g|)
    && (forall i {:trigger Edge(g, p[i - 1], p[i])} :: 0 < i < |p| ==> Edge(g, p[i - 1], p[i]))
  }

  /** No trail is so long that the level of its last rule would reach the sentinel; so there is no circle either. */
  ghost predicate Shallow(g: Table, V: int) {
    forall p :: Trail(g, V, p) ==> |p| < INIT
  }

  ghost predicate Mentioned(g: Table, V: int) {
    forall c :: V <= c < |g| ==> Mentions(g, c) >= 1
  }

  /** Some trail of `n` rules begins with `x`. */
  ghost predicate From(g: Table, V: int, x: int, n: int) {
    exists p :: Trail(g, V, p) && |p| == n && (n > 0 ==> p[0] == x)
  }

  /** The length of the longest trail that begins with `x` and stays clear of the sentinel. */
  ghost function Longest(g: Table, V: int, x: int): (k: nat)
    ensures k < INIT && From(g, V, x, k) && forall m :: 0 <= m < INIT && From(g, V, x, m) ==> m <= k
  {
    assert Trail(g, V, []);
    var P := (m: int) => From(g, V, x, m);
    assert forall m :: From(g, V, x, m) <==> P(m);
    Cards.Greatest(P, INIT - 1)
  }

  /** Every rule has a positive rank below the sentinel. */
  ghost predicate RanksFit(g: Table, V: int, h: seq<nat>) {
    Ranked(g, V, h) && forall c :: V <= c < |g| ==> 1 <= h[c] < INIT
  }

  /** When trails stay short, their lengths are ranks. */
  lemma RankOf(g: Table, V: int) returns (h: seq<nat>)
    requires 0 <= V && InRange(g, |g|) && Shallow(g, V)
    ensures RanksFit(g, V, h)
  {
    h := seq(|g|, x => Longest(g, V, x));
    forall c | V <= c < |g| ensures 1 <= h[c] {
      assert Trail(g, V, [c]);
      assert From(g, V, c, 1);
    }
    forall r, i | V <= r < |g| && 0 <= i < |g[r]| && V <= g[r][i] ensures h[g[r][i]] < h[r] {
      LongerFrom(g, V, r, g[r][i], h[g[r][i]]);
    }
  }

  lemma LongerFrom(g: Table, V: int, r: int, c: int, n: nat)
    requires 0 <= V <= r < |g| && V <= c < |g| && c in g[r] && From(g, V, c, n) && Shallow(g, V)
    ensures From(g, V, r, n + 1) && n + 1 < INIT
  {
    var p :| Trail(g, V, p) && |p| == n && (n > 0 ==> p[0] == c);
    TallyIn(g[r], c);
    var q := [r] + p;
    forall i | 0 < i < |q| ensures Edge(g, q[i - 1], q[i]) {
      if i > 1 {
        var j := i - 1;
        assert Edge(g, p[j - 1], p[j]);
      }
    }
    assert Trail(g, V, q);
  }

  /** Levels below the sentinel need trails below the sentinel. */
  lemma ShallowNeeded(g: Table, V: int, order: seq<int>)
    requires Leveled(g, V, order) && forall s :: 0 <= s < |g| ==> 0 <= order[s] < INIT
    ensures Shallow(g, V)
  {
    forall p | Trail(g, V, p) ensures |p| < INIT {
      if p != [] {
        TrailBounds(g, V, order, p, |p| - 1);
      }
    }
  }

  lemma {:induction false} TrailBounds(g: Table, V: int, order: seq<int>, p: seq<int>, i: nat)
    requires Leveled(g, V, order) && Trail(g, V, p) && i < |p| && forall s :: 0 <= s < |g| ==> 0 <= order[s]
    ensures i + 1 <= order[p[i]]
  {
    assert LevelAt(g, order, p[i]);
    if i > 0 {
      TrailBounds(g, V, order, p, i - 1);
      assert Edge(g, p[i - 1], p[i]);
    } else {
      var r :| Edge(g, r, p[0]) && order[r] == order[p[0]] - 1;
    }
  }

  /** No way is longer than the level of its end. */
  lemma {:induction false} LevelBounds(g: Table, V: int, order: seq<int>, p: seq<int>)
    requires Leveled(g, V, order) && Way(g, V, p)
    ensures |p| - 1 <= order[p[|p| - 1]]
  {
    if |p| > 1 {
      var k := |p| - 1;
      assert Edge(g, p[k - 1], p[k]);
      var q := p[..k];
      forall i | 0 < i < |q| ensures Edge(g, q[i - 1], q[i]) {
        assert Edge(g, p[i - 1], p[i]);
      }
      LevelBounds(g, V, order, q);
      assert LevelAt(g, order, p[k]);
    }
  }

  /** Some way is as long as the level of its end. */
  lemma {:induction false} LevelReached(g: Table, V: int, order: seq<int>, c: int) returns (p: seq<int>)
    requires Leveled(g, V, order) && 0 <= c < |g| && 0 <= order[c]
    requires forall s :: 0 <= s < |g| ==> 0 <= order[s]
    ensures Way(g, V, p) && p[|p| - 1] == c && |p| - 1 == order[c]
    decreases order[c]
  {
    if c < V {
      p := [c];
    } else {
      assert LevelAt(g, order, c);
      var r :| Edge(g, r, c) && order[r] == order[c] - 1;
      var q := LevelReached(g, V, order, r);
      p := q + [c];
      forall i | 0 < i < |p| ensures Edge(g, p[i - 1], p[i]) {
        if i < |q| {
          assert Edge(g, q[i - 1], q[i]);
        }
      }
    }
  }

  // ---------- counting the mentions that have not been scanned ----------

  lemma {:induction false} LiveWithout(g: Table, done: set<int>, src: int, c: int, n: int)
    requires 0 <= n <= |g| && 0 <= src < |g| && src !in done
    ensures LiveMentions(g, done + {src}, c, n) == LiveMentions(g, done, c, n) - if src < n then Tally(g[src], c) else 0
  {
    if n > 0 {
      LiveWithout(g, done, src, c, n - 1);
    }
  }

  lemma {:induction false} LiveAtLeast(g: Table, done: set<int>, r: int, c: int, n: int)
    requires 0 <= r < n <= |g| && r !in done
    ensures LiveMentions(g, done, c, n) >= Tally(g[r], c)
  {
    if r < n - 1 {
      LiveAtLeast(g, done, r, c, n - 1);
    }
  }

  lemma {:induction false} LiveNone(g: Table, done: set<int>, c: int, n: int)
    requires 0 <= n <= |g| && forall r :: 0 <= r < n && r !in done ==> Tally(g[r], c) == 0
    ensures LiveMentions(g, done, c, n) == 0
  {
    if n > 0 {
      LiveNone(g, done, c, n - 1);
    }
  }

  /** The degrees while row `src` is being scanned: `k` of its places are done. */
  ghost predicate Degrees(g: Table, V: int, done: set<int>, src: int, k: int, degree: seq<int>) {
    && 0 <= V <= |g| == V + |degree| && 0 <= src < |g| && src !in done && 0 <= k <= |g[src]|
    && forall c :: V <= c < |g| ==> degree[c - V] == LiveMentions(g, done, c, |g|) - Tally(g[src][..k], c)
  }

  /** When the degree of `c` is 0, every row that mentions it has been scanned, or is the current one. */
  lemma Exhausted(g: Table, V: int, done: set<int>, src: int, k: int, degree: seq<int>, c: int, r: int)
    requires Degrees(g, V, done, src, k, degree) && V <= c < |g| && degree[c - V] == 0 && Edge(g, r, c)
    ensures r in done || r == src
  {
    if r !in done && r != src {
      LiveWithout(g, done, src, c, |g|);
      LiveAtLeast(g, done + {src}, r, c, |g|);
      TallyMost(g[src], k, c);
    }
  }

  lemma TallyMost(row: seq<int>, k: int, c: int)
    requires 0 <= k <= |row|
    ensures Tally(row[..k], c) <= Tally(row, c)
  {
    assert row == row[..k] + row[k..];
  }

  /** The degrees between two rows. */
  ghost predicate Counted(g: Table, V: int, done: set<int>, degree: seq<int>) {
    && 0 <= V <= |g| == V + |degree|
    && forall c :: V <= c < |g| ==> degree[c - V] == LiveMentions(g, done, c, |g|)
  }

  lemma RowBegins(g: Table, V: int, done: set<int>, src: int, degree: seq<int>)
    requires Counted(g, V, done, degree) && 0 <= src < |g| && src !in done
    ensures Degrees(g, V, done, src, 0, degree)
  {
    assert g[src][..0] == [];
  }

  lemma RowEnds(g: Table, V: int, done: set<int>, src: int, degree: seq<int>)
    requires 0 <= src < |g| && Degrees(g, V, done, src, |g[src]|, degree)
    ensures Counted(g, V, done + {src}, degree)
  {
    forall c | V <= c < |g| ensures degree[c - V] == LiveMentions(g, done + {src}, c, |g|) {
      LiveWithout(g, done, src, c, |g|);
      assert g[src][..|g[src]|] == g[src];
    }
  }

  // ---------- the levels given so far ----------

  /** Levels up to `step` have been given, rightly; `h` keeps them below the sentinel. */
  ghost predicate Given(g: Table, V: int, h: seq<nat>, order: seq<int>, step: int) {
    && 0 <= V <= |g| == |order| == |h|
    && (forall v :: 0 <= v < V ==> order[v] == 0)
    && (forall c :: V <= c < |g| ==> 1 <= h[c] < INIT)
    && (forall c :: V <= c < |g| && order[c] != INIT ==>
         1 <= order[c] <= step && order[c] + h[c] <= INIT && LevelAt(g, order, c))
  }

  /** Exactly the rules whose mentions have all been scanned have a level. */
  ghost predicate Zeros(V: int, order: seq<int>, degree: seq<int>) {
    && 0 <= V && |order| == V + |degree|
    && forall c {:trigger order[c]} {:trigger ZeroAt(V, order, degree, c)} :: V <= c < |order| ==>
         ZeroAt(V, order, degree, c)
  }

  ghost predicate ZeroAt(V: int, order: seq<int>, degree: seq<int>, c: int)
    requires 0 <= V <= c < |order| == V + |degree|
  {
    degree[c - V] >= 0 && (order[c] != INIT <==> degree[c - V] == 0)
  }

  /** `list` holds the nodes of one level, each once. */
  ghost predicate Lists(order: seq<int>, list: seq<int>, level: int) {
    && (forall i :: 0 <= i < |list| ==> 0 <= list[i] < |order| && order[list[i]] == level)
    && (forall i, j :: 0 <= i < j < |list| ==> list[i] != list[j])
    && (forall s :: 0 <= s < |order| && order[s] == level ==> s in list)
  }

  /** In the middle of row `src`, on the level before `step`. */
  ghost predicate Peel(g: Table, V: int, h: seq<nat>, done: set<int>, src: int, k: int, order: seq<int>,
                       degree: seq<int>, out: seq<int>, step: int) {
    && Ranked(g, V, h) && Degrees(g, V, done, src, k, degree) && Given(g, V, h, order, step) && Zeros(V, order, degree)
    && Lists(order, out, step) && 1 <= step <= INIT && (step == INIT ==> out == []) && order[src] == step - 1
    && (forall s :: s in done ==> 0 <= s < |g| && order[s] < step)
  }

  /** A place with a vertex changes nothing. */
  lemma PeelVertex(g: Table, V: int, h: seq<nat>, done: set<int>, src: int, k: int, order: seq<int>,
                   degree: seq<int>, out: seq<int>, step: int)
    requires Peel(g, V, h, done, src, k, order, degree, out, step) && k < |g[src]| && g[src][k] < V
    ensures Peel(g, V, h, done, src, k + 1, order, degree, out, step)
  {
    forall c | V <= c < |g| ensures Tally(g[src][..k + 1], c) == Tally(g[src][..k], c) {
      TallyPrefix(g[src], k, c);
    }
  }

  /** A rule at the next place has no level yet. */
  lemma PeelRule(g: Table, V: int, h: seq<nat>, done: set<int>, src: int, k: int, order: seq<int>, degree: seq<int>,
                 out: seq<int>, step: int)
    requires Peel(g, V, h, done, src, k, order, degree, out, step) && k < |g[src]| && g[src][k] >= V
    ensures var c := g[src][k]; V <= c < |g| && degree[c - V] > 0 && order[c] == INIT
    ensures var c := g[src][k]; Degrees(g, V, done, src, k + 1, degree[c - V := degree[c - V] - 1])
  {
    var x := g[src][k];
    assert V <= x < |g|;
    TallyPrefix(g[src], k, x);
    LiveAtLeast(g, done, src, x, |g|);
    forall c | V <= c < |g| ensures Tally(g[src][..k + 1], c) == Tally(g[src][..k], c) + if c == x then 1 else 0 {
      TallyPrefix(g[src], k, c);
    }
  }

  /** The last mention of a rule gives it its level. */
  lemma PeelLast(g: Table, V: int, h: seq<nat>, done: set<int>, src: int, k: int, order: seq<int>, degree: seq<int>,
                 out: seq<int>, step: int)
    requires Peel(g, V, h, done, src, k, order, degree, out, step) && k < |g[src]| && g[src][k] >= V
    requires V <= g[src][k] < |g| && degree[g[src][k] - V] == 1
    ensures var c := g[src][k];
            && step < INIT
            && Peel(g, V, h, done, src, k + 1, order[c := step], degree[c - V := 0], out + [c], step)
  {
    PeelRule(g, V, h, done, src, k, order, degree, out, step);
    var c := g[src][k];
    RankBelow(g, V, h, order, step, src, k);
    PeelGiven(g, V, h, done, src, k, order, degree, step);
    PeelLists(order, out, step, c);
    LastZeros(V, order, degree, c, step);
    hide Given, Ranked, Degrees, Lists, Zeros;
  }

  lemma PeelLists(order: seq<int>, out: seq<int>, step: int, c: int)
    requires Lists(order, out, step) && 0 <= c < |order| && order[c] != step
    ensures Lists(order[c := step], out + [c], step)
  {
    assert forall s :: s in out + [c] <==> s in out || s == c;
  }

  lemma RankBelow(g: Table, V: int, h: seq<nat>, order: seq<int>, step: int, src: int, k: int)
    requires Ranked(g, V, h) && Given(g, V, h, order, step) && 0 <= src < |g| && order[src] == step - 1 < INIT
    requires 0 <= k < |g[src]| && V <= g[src][k]
    ensures 0 <= g[src][k] < |g| && step + h[g[src][k]] <= INIT && step < INIT
  {
    var c := g[src][k];
    if src >= V {
      assert order[src] + h[src] <= INIT;
    }
  }

  lemma PeelGiven(g: Table, V: int, h: seq<nat>, done: set<int>, src: int, k: int, order: seq<int>, degree: seq<int>,
                  step: int)
    requires Given(g, V, h, order, step) && 0 <= src < |g| && order[src] == step - 1 && 1 <= step < INIT
    requires 0 <= k < |g[src]| && V <= g[src][k] < |g| && order[g[src][k]] == INIT && step + h[g[src][k]] <= INIT
    requires |degree| == |g| - V
    requires Degrees(g, V, done, src, k + 1, degree[g[src][k] - V := 0])
    requires forall s :: s in done ==> 0 <= s < |g| && order[s] < step
    ensures Given(g, V, h, order[g[src][k] := step], step)
  {
    var c := g[src][k];
    var order' := order[c := step];
    forall r | Edge(g, r, c) ensures order'[r] < step {
      Exhausted(g, V, done, src, k + 1, degree[c - V := 0], c, r);
    }
    TallyIn(g[src], c);
    assert Edge(g, src, c) && order'[src] == step - 1;
    assert LevelAt(g, order', c);
    forall d | V <= d < |g| && order'[d] != INIT && d != c ensures LevelAt(g, order', d) {
      assert LevelAt(g, order, d);
      LevelKept(g, order, c, step, d);
    }
  }

  lemma LevelKept(g: Table, order: seq<int>, c: int, step: int, d: int)
    requires |order| == |g| && 0 <= c < |g| && order[c] == INIT && 0 <= d < |g| && d != c && order[d] < INIT
             && LevelAt(g, order, d)
    ensures LevelAt(g, order[c := step], d)
  {
    var r :| Edge(g, r, d) && order[r] == order[d] - 1;
    assert Edge(g, r, d) && order[c := step][r] == order[d] - 1;
  }

  /** Any other mention of a rule takes its degree down. */
  lemma PeelDrop(g: Table, V: int, h: seq<nat>, done: set<int>, src: int, k: int, order: seq<int>, degree: seq<int>,
                 out: seq<int>, step: int)
    requires Peel(g, V, h, done, src, k, order, degree, out, step) && k < |g[src]| && g[src][k] >= V
    requires V <= g[src][k] < |g| && degree[g[src][k] - V] > 1
    ensures var c := g[src][k]; Peel(g, V, h, done, src, k + 1, order, degree[c - V := degree[c - V] - 1], out, step)
  {
    PeelRule(g, V, h, done, src, k, order, degree, out, step);
    DropZeros(V, order, degree, g[src][k]);
    hide Given, Ranked, Degrees, Lists, Zeros;
  }

  lemma DropZeros(V: int, order: seq<int>, degree: seq<int>, c: int)
    requires Zeros(V, order, degree) && V <= c < |order| && order[c] == INIT && degree[c - V] > 1
    ensures Zeros(V, order, degree[c - V := degree[c - V] - 1])
  {
    var degree' := degree[c - V := degree[c - V] - 1];
    forall d | V <= d < |order| ensures ZeroAt(V, order, degree', d) {
      assert ZeroAt(V, order, degree, d);
      ElsewhereSame(degree, c - V, degree[c - V] - 1, d - V);
    }
  }

  lemma ElsewhereSame(s: seq<int>, i: int, x: int, j: int)
    requires 0 <= i < |s| && 0 <= j < |s|
    ensures s[i := x][j] == if i == j then x else s[j]
  {
  }

  lemma LastZeros(V: int, order: seq<int>, degree: seq<int>, c: int, step: int)
    requires Zeros(V, order, degree) && V <= c < |order| && step != INIT
    ensures Zeros(V, order[c := step], degree[c - V := 0])
  {
    var order', degree' := order[c := step], degree[c - V := 0];
    forall d | V <= d < |order| ensures ZeroAt(V, order', degree', d) {
      assert ZeroAt(V, order, degree, d);
      ElsewhereSame(degree, c - V, 0, d - V);
      ElsewhereSame(order, c, step, d);
    }
  }

  // ---------- whole levels ----------

  ghost function Lower(order: seq<int>, level: int): (s: set<int>) {
    set x | 0 <= x < |order| && order[x] < level
  }

  ghost function Listed(list: seq<int>, i: int): (s: set<int>)
    requires 0 <= i <= |list|
  {
    set j | 0 <= j < i :: list[j]
  }

  /** On the level before `step`, the first `i` rows of the list have been scanned. */
  ghost predicate Half(g: Table, V: int, h: seq<nat>, lower: set<int>, work: seq<int>, i: int, order: seq<int>,
                       degree: seq<int>, out: seq<int>, step: int) {
    && Ranked(g, V, h) && 0 <= i <= |work| && Counted(g, V, lower + Listed(work, i), degree)
    && Given(g, V, h, order, step) && Zeros(V, order, degree) && Lists(order, out, step) && Lists(order, work, step - 1)
    && 1 <= step <= INIT && (step == INIT ==> out == []) && lower == Lower(order, step - 1)
  }

  lemma HalfBegins(g: Table, V: int, h: seq<nat>, lower: set<int>, work: seq<int>, i: int, order: seq<int>,
                   degree: seq<int>, out: seq<int>, step: int)
    requires Half(g, V, h, lower, work, i, order, degree, out, step) && i < |work|
    ensures Peel(g, V, h, lower + Listed(work, i), work[i], 0, order, degree, out, step)
  {
    RowBegins(g, V, lower + Listed(work, i), work[i], degree);
    hide Ranked, Given, Counted, Degrees;
  }

  /** A level given to rules that had none leaves the levels below and their lists alone. */
  ghost predicate OnlyNew(order: seq<int>, order': seq<int>, step: int) {
    && |order'| == |order|
    && forall s :: 0 <= s < |order| ==> order'[s] == order[s] || (order[s] == INIT && order'[s] == step)
  }

  lemma HalfEnds(g: Table, V: int, h: seq<nat>, lower: set<int>, work: seq<int>, i: int, order0: seq<int>,
                 degree0: seq<int>, out0: seq<int>,
                 order: seq<int>, degree: seq<int>, out: seq<int>, step: int)
    requires Half(g, V, h, lower, work, i, order0, degree0, out0, step) && i < |work| && 0 <= work[i] < |g|
             && OnlyNew(order0, order, step)
    requires Peel(g, V, h, lower + Listed(work, i), work[i], |g[work[i]]|, order, degree, out, step)
    ensures Half(g, V, h, lower, work, i + 1, order, degree, out, step)
  {
    hide Ranked, Given, Counted, Degrees, Lists, Lower, Listed, OnlyNew;
    LowerKept(order0, order, work, i, step);
    RowEnds(g, V, lower + Listed(work, i), work[i], degree);
    assert lower + Listed(work, i) + {work[i]} == lower + Listed(work, i + 1);
  }

  /** A rule that gets its level now is on no lower level. */
  lemma LowerKept(order0: seq<int>, order: seq<int>, work: seq<int>, i: int, step: int)
    requires OnlyNew(order0, order, step) && Lists(order0, work, step - 1) && step <= INIT && 0 <= i < |work|
    ensures Lists(order, work, step - 1) && Lower(order, step - 1) == Lower(order0, step - 1)
    ensures Listed(work, i + 1) == Listed(work, i) + {work[i]}
  {
  }

  /** Between two levels. */
  ghost predicate Levels(g: Table, V: int, h: seq<nat>, work: seq<int>, order: seq<int>, degree: seq<int>, step: int) {
    && Ranked(g, V, h) && Counted(g, V, Lower(order, step - 1), degree) && Given(g, V, h, order, step - 1)
    && Zeros(V, order, degree) && Lists(order, work, step - 1) && 1 <= step <= INIT + 1 && (step > INIT ==> work == [])
  }

  lemma LevelBegins(g: Table, V: int, h: seq<nat>, work: seq<int>, order: seq<int>, degree: seq<int>, step: int)
    requires Levels(g, V, h, work, order, degree, step) && work != []
    ensures Half(g, V, h, Lower(order, step - 1), work, 0, order, degree, [], step)
  {
    hide Ranked, Counted, LevelAt;
    assert Lower(order, step - 1) + Listed(work, 0) == Lower(order, step - 1);
    if step == INIT {
      LastLevel(g, V, h, work, order, degree);
    }
    assert order[work[0]] == step - 1;
  }

  /** Nothing is left without a level on the last level before the sentinel. */
  lemma LastLevel(g: Table, V: int, h: seq<nat>, work: seq<int>, order: seq<int>, degree: seq<int>)
    requires Levels(g, V, h, work, order, degree, INIT)
    ensures Lists(order, [], INIT)
  {
    hide Ranked, Counted, LevelAt, Zeros;
    forall c | 0 <= c < |order| ensures order[c] != INIT {
      if V <= c {
        AllGiven(g, V, h, work, order, degree, INIT, c);
      }
    }
  }

  lemma LevelEnds(g: Table, V: int, h: seq<nat>, lower: set<int>, work: seq<int>, order: seq<int>, degree: seq<int>,
                  out: seq<int>, step: int)
    requires Half(g, V, h, lower, work, |work|, order, degree, out, step)
    ensures Levels(g, V, h, out, order, degree, step + 1)
    ensures lower == Lower(order, step - 1) && (work != [] ==> |Lower(order, step)| > |lower|)
  {
    hide Ranked, Counted, Given, Zeros;
    LowerNext(order, work, step);
  }

  lemma LowerNext(order: seq<int>, work: seq<int>, step: int)
    requires Lists(order, work, step - 1)
    ensures Lower(order, step) == Lower(order, step - 1) + Listed(work, |work|)
    ensures work != [] ==> |Lower(order, step)| > |Lower(order, step - 1)|
  {
    var lower := Lower(order, step - 1);
    assert Lower(order, step) == lower + Listed(work, |work|);
    if work != [] {
      assert work[0] in Lower(order, step);
      Cards.SubsetCard(lower, Lower(order, step) - {work[0]});
    }
  }

  // ---------- the loops ----------

  /** Scans row `src`. */
  method ScanRow(vlist: seq<int>, elist: seq<int>, V: int, src: int, order0: seq<int>, degree0: seq<int>,
                 out0: seq<int>, step: int,
                 ghost g: Table, ghost h: seq<nat>, ghost done: set<int>)
    returns (order: seq<int>, degree: seq<int>, out: seq<int>)
    requires Readable(vlist, elist) && 0 <= src < |g| < |vlist| && g[src] == Row(vlist, elist, src)
    requires Peel(g, V, h, done, src, 0, order0, degree0, out0, step)
    ensures Peel(g, V, h, done, src, |g[src]|, order, degree, out, step) && OnlyNew(order0, order, step)
  {
    hide Peel, Degrees, Given, Zeros, Lists;
    order, degree, out := order0, degree0, out0;
    var eid := vlist[src];
    while eid < vlist[src + 1]
      invariant if vlist[src] < vlist[src + 1] then vlist[src] <= eid <= vlist[src + 1] else eid == vlist[src]
      invariant Peel(g, V, h, done, src, if vlist[src] < vlist[src + 1] then eid - vlist[src]
                     else 0, order, degree, out, step)
      invariant OnlyNew(order0, order, step)
    {
      ghost var k := eid - vlist[src];
      var dst := elist[eid];
      assert dst == g[src][k];
      PeelSizes(g, V, h, done, src, k, order, degree, out, step);
      if dst < V {
        PeelVertex(g, V, h, done, src, k, order, degree, out, step);
      } else {
        PeelRule(g, V, h, done, src, k, order, degree, out, step);
      }
      if order[dst] == INIT && dst >= V {
        var rule := dst - V;
        if degree[rule] == 1 {
          PeelLast(g, V, h, done, src, k, order, degree, out, step);
        } else {
          PeelDrop(g, V, h, done, src, k, order, degree, out, step);
        }
        degree := degree[rule := degree[rule] - 1];
        if degree[rule] == 0 {
          order := order[dst := step];
          out := out + [dst];
        }
      }
      eid := eid + 1;
    }
  }

  lemma PeelSizes(g: Table, V: int, h: seq<nat>, done: set<int>, src: int, k: int, order: seq<int>, degree: seq<int>,
                  out: seq<int>, step: int)
    requires Peel(g, V, h, done, src, k, order, degree, out, step)
    ensures |order| == |g| == V + |degree| && 0 <= src < |g| && 0 <= k <= |g[src]|
    ensures (k < |g[src]| ==> 0 <= g[src][k] < |g|)
    ensures forall v :: 0 <= v < V ==> order[v] == 0
  {
  }

  /** Scans the rows of one level. */
  method ScanLevel(vlist: seq<int>, elist: seq<int>, V: int, work: seq<int>, order0: seq<int>, degree0: seq<int>,
                   step: int,
                   ghost g: Table, ghost h: seq<nat>)
    returns (order: seq<int>, degree: seq<int>, out: seq<int>)
    requires Readable(vlist, elist) && |g| < |vlist| && g == Rows(vlist, elist, |g|)
    requires Levels(g, V, h, work, order0, degree0, step) && work != []
    ensures Levels(g, V, h, out, order, degree, step + 1) && |order| == |order0| == |g|
    ensures |Lower(order, step)| > |Lower(order0, step - 1)| && exists s :: 0 <= s < |order| && order[s] == step - 1
  {
    hide Levels, Half, Peel, Lower, Readable;
    order, degree, out := order0, degree0, [];
    ghost var lower := Lower(order, step - 1);
    LevelBegins(g, V, h, work, order, degree, step);
    HalfSizes(g, V, h, lower, work, 0, order, degree, out, step);
    var i := 0;
    while i < |work|
      invariant 0 <= i <= |work| && Half(g, V, h, lower, work, i, order, degree, out, step)
    {
      HalfBegins(g, V, h, lower, work, i, order, degree, out, step);
      HalfSizes(g, V, h, lower, work, i, order, degree, out, step);
      ghost var order1, degree1, out1 := order, degree, out;
      order, degree, out := ScanRow(vlist, elist, V, work[i], order, degree, out, step, g, h, lower + Listed(work, i));
      HalfEnds(g, V, h, lower, work, i, order1, degree1, out1, order, degree, out, step);
      i := i + 1;
    }
    HalfSizes(g, V, h, lower, work, i, order, degree, out, step);
    LevelEnds(g, V, h, lower, work, order, degree, out, step);
    assert order[work[0]] == step - 1;
  }

  lemma HalfSizes(g: Table, V: int, h: seq<nat>, lower: set<int>, work: seq<int>, i: int, order: seq<int>,
                  degree: seq<int>, out: seq<int>, step: int)
    requires Half(g, V, h, lower, work, i, order, degree, out, step)
    ensures |order| == |g| && forall j :: 0 <= j < |work| ==> 0 <= work[j] < |g| && order[work[j]] == step - 1
  {
  }

  /**
   Every rule has a level once no list is left, and on the last level before the sentinel: a rule without one would be
   mentioned by a rule without one.
   */
  lemma {:induction false} AllGiven(g: Table, V: int, h: seq<nat>, work: seq<int>, order: seq<int>, degree: seq<int>,
                                    step: int, c: int)
    requires Levels(g, V, h, work, order, degree, step) && V <= c < |g| && (work == [] || step == INIT)
    ensures order[c] != INIT
    decreases INIT - h[c]
  {
    var done := Lower(order, step - 1);
    forall r | 0 <= r < |g| && r !in done ensures Tally(g[r], c) == 0 {
      if Tally(g[r], c) > 0 {
        TallyIn(g[r], c);
        if r >= V {
          AllGiven(g, V, h, work, order, degree, step, r);
        }
      }
    }
    LiveNone(g, done, c, |g|);
  }

  lemma AllLeveled(g: Table, V: int, h: seq<nat>, order: seq<int>, degree: seq<int>, step: int)
    requires Levels(g, V, h, [], order, degree, step)
    ensures Leveled(g, V, order) && forall s :: 0 <= s < |g| ==> 0 <= order[s] < step - 1
  {
    hide Counted, Zeros, LevelAt;
    forall c | V <= c < |g| ensures order[c] != INIT {
      AllGiven(g, V, h, [], order, degree, step, c);
    }
  }

  /** Counts the mentions of every rule in the edge list. */
  method CountDegrees(elist: seq<int>, V: int, ruleCount: int) returns (degree: seq<int>)
    requires 0 <= V && 0 <= ruleCount && RowIn(elist, V + ruleCount)
    ensures |degree| == ruleCount && forall k :: 0 <= k < ruleCount ==> degree[k] == Tally(elist, V + k)
  {
    degree := seq(ruleCount, _ => 0);
    var i := 0;
    while i < |elist|
      invariant 0 <= i <= |elist| && |degree| == ruleCount
      invariant forall k :: 0 <= k < ruleCount ==> degree[k] == Tally(elist[..i], V + k)
    {
      var next := degree;
      if elist[i] >= V {
        next := degree[elist[i] - V := degree[elist[i] - V] + 1];
      }
      forall k | 0 <= k < ruleCount ensures next[k] == Tally(elist[..i + 1], V + k) {
        TallyPrefix(elist, i, V + k);
      }
      degree := next;
      i := i + 1;
    }
    assert elist[..i] == elist;
  }

  /** The edge list holds the rows one after the other, so a node occurs in it as often as in the rows. */
  lemma {:induction false} EdgeMentions(vlist: seq<int>, elist: seq<int>, k: int, c: int)
    requires Csr(vlist, elist) && Readable(vlist, elist) && 0 <= k < |vlist|
    ensures Tally(elist[..vlist[k]], c) == Mentions(Rows(vlist, elist, k), c)
  {
    if k > 0 {
      EdgeMentions(vlist, elist, k - 1, c);
      PrefixMore(vlist, elist, k - 1);
      hide Readable, Row, Mentions, Rows;
      MentionsMore(Rows(vlist, elist, k - 1), Row(vlist, elist, k - 1), c);
    }
  }

  lemma PrefixMore(vlist: seq<int>, elist: seq<int>, k: int)
    requires Csr(vlist, elist) && Readable(vlist, elist) && 0 <= k < |vlist| - 1
    ensures elist[..vlist[k + 1]] == elist[..vlist[k]] + Row(vlist, elist, k)
    ensures Rows(vlist, elist, k + 1) == Rows(vlist, elist, k) + [Row(vlist, elist, k)]
  {
  }

  /** Nothing has been scanned: the vertices have level 0, and no rule has a level. */
  lemma Start(vlist: seq<int>, elist: seq<int>, g: Table, V: int, h: seq<nat>, work: seq<int>, order: seq<int>,
              degree: seq<int>)
    requires Csr(vlist, elist) && Readable(vlist, elist) && |vlist| == |g| + 1 && vlist[|g|] == |elist|
             && g == Rows(vlist, elist, |g|)
    requires 0 <= V <= |g| && RanksFit(g, V, h) && Mentioned(g, V)
    requires |order| == |g| && forall s :: 0 <= s < |g| ==> order[s] == if s < V then 0 else INIT
    requires |work| == V && forall v :: 0 <= v < V ==> work[v] == v
    requires |degree| == |g| - V && forall k :: 0 <= k < |degree| ==> degree[k] == Tally(elist, V + k)
    ensures Levels(g, V, h, work, order, degree, 1)
  {
    hide Csr, Readable, Tally, Ranked, LevelAt, LiveMentions, Mentions;
    RankedRange(g, V, h);
    assert elist[..|elist|] == elist && g[..|g|] == g;
    assert Lower(order, 0) == {};
    forall c | V <= c < |g| ensures degree[c - V] == Mentions(g, c) == LiveMentions(g, {}, c, |g|) {
      EdgeMentions(vlist, elist, |g|, c);
      AllMentions(g, c, |g|);
      assert degree[c - V] == Tally(elist, V + (c - V));
    }
    forall c | V <= c < |g| ensures degree[c - V] >= 1 && order[c] == INIT {
      assert Mentions(g, c) >= 1;
    }
    assert Zeros(V, order, degree);
    forall s | 0 <= s < |g| && order[s] == 0 ensures s in work {
      assert work[s] == s;
    }
    assert Lists(order, work, 0);
  }

  /** The levels of all nodes, and how many levels there are. */
  method VertexOrder(vlist: seq<int>, elist: seq<int>, V: int, ruleCount: int) returns (order: seq<int>, depth: int)
    requires Csr(vlist, elist) && Readable(vlist, elist) && 0 <= V && 0 <= ruleCount && |vlist| == V + ruleCount + 1
             && vlist[V + ruleCount] == |elist|
    requires var g := Rows(vlist, elist, V + ruleCount); InRange(g, |g|) && Mentioned(g, V) && Shallow(g, V)
    ensures Leveled(Rows(vlist, elist, V + ruleCount), V, order)
    ensures forall s :: 0 <= s < V + ruleCount ==> 0 <= order[s] < depth
    ensures if V + ruleCount == 0 then depth == 0 else exists s :: 0 <= s < V + ruleCount && order[s] == depth - 1
  {
    hide Csr, Readable, Levels, Leveled, Lower, Shallow, Mentioned, RanksFit;
    ghost var g := Rows(vlist, elist, V + ruleCount);
    ghost var h := RankOf(g, V);
    EdgesIn(vlist, elist, g);
    order := seq(V + ruleCount, s => if s < V then 0 else INIT);
    var degree := CountDegrees(elist, V, ruleCount);
    var work := seq(V, v => v);
    Start(vlist, elist, g, V, h, work, order, degree);
    var step := 1;
    LowerSize(order, 0);
    while |work| != 0
      invariant Levels(g, V, h, work, order, degree, step) && 1 <= step && |order| == |g|
      invariant |Lower(order, step - 1)| <= |g|
      invariant step == 1 ==> |work| == V
      invariant step > 1 ==> exists s :: 0 <= s < |order| && order[s] == step - 2
      decreases |g| - |Lower(order, step - 1)|
    {
      var out;
      order, degree, out := ScanLevel(vlist, elist, V, work, order, degree, step, g, h);
      LowerSize(order, step);
      step := step + 1;
      work := out;
    }
    depth := step - 1;
    assert work == [];
    AllLeveled(g, V, h, order, degree, step);
    assert V + ruleCount > 0 ==> order[0] < depth;
  }

  lemma LowerSize(order: seq<int>, level: int)
    ensures |Lower(order, level)| <= |order|
  {
    var all := Cards.Below(|order|);
    Cards.SubsetCard(Lower(order, level), all);
  }

  lemma EdgesIn(vlist: seq<int>, elist: seq<int>, g: Table)
    requires Csr(vlist, elist) && Readable(vlist, elist) && |vlist| == |g| + 1 && vlist[|g|] == |elist|
             && g == Rows(vlist, elist, |g|) && InRange(g, |g|)
    ensures RowIn(elist, |g|)
  {
    forall i | 0 <= i < |elist| ensures 0 <= elist[i] < |g| {
      var r := RowWith(vlist, elist, i, |g|);
      assert elist[i] == g[r][i - vlist[r]];
    }
  }
}
