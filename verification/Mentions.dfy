/**
 How often a node is mentioned: in the rows, in the transposed rows, and after renumbering.
 */
module MentionCounts {
  import opened RuleGraph
  import opened Inlining
  import opened RuleTables

  /** How often `c` is mentioned in all rows together. */
  ghost function Mentions(g: Table, c: int): (k: nat) {
    if g == [] then 0 else Mentions(g[..|g| - 1], c) + Tally(g[|g| - 1], c)
  }

  /** How often `c` is mentioned in those of the first `n` rows that are not dead. */
  ghost function LiveMentions(g: Table, dead: set<int>, c: int, n: int): (k: nat)
    requires 0 <= n <= |g|
  {
    if n == 0 then 0 else LiveMentions(g, dead, c, n - 1) + if n - 1 in dead then 0 else Tally(g[n - 1], c)
  }

  /** The numbers below `n` in a row, counted one after the other. */
  ghost function Total(row: seq<int>, n: int): (k: nat)
    requires 0 <= n
  {
    if n == 0 then 0 else Total(row, n - 1) + Tally(row, n - 1)
  }

  lemma {:induction false} TotalMore(row: seq<int>, x: int, n: int)
    requires 0 <= n && 0 <= x
    ensures Total(row + [x], n) == Total(row, n) + if x < n then 1 else 0
  {
    if n > 0 {
      TotalMore(row, x, n - 1);
      assert Tally(row + [x], n - 1) == Tally(row, n - 1) + if x == n - 1 then 1 else 0;
    }
  }

  lemma {:induction false} TotalNone(n: int)
    requires 0 <= n
    ensures Total([], n) == 0
  {
    if n > 0 {
      TotalNone(n - 1);
    }
  }

  lemma {:induction false} TotalIsSize(row: seq<int>, n: int)
    requires RowIn(row, n) && 0 <= n
    ensures Total(row, n) == |row|
  {
    if row == [] {
      TotalNone(n);
    } else {
      var k := |row| - 1;
      TotalIsSize(row[..k], n);
      TotalMore(row[..k], row[k], n);
      assert row == row[..k] + [row[k]];
    }
  }

  lemma {:induction false} TotalIsMentions(g: Table, t: Table, dead: set<int>, c: int, n: int)
    requires Exact(g, t, dead) && 0 <= c < |g| && c !in dead && 0 <= n <= |g|
    ensures Total(t[c], n) == LiveMentions(g, dead, c, n)
  {
    if n > 0 {
      TotalIsMentions(g, t, dead, c, n - 1);
      assert Tally(t[c], n - 1) == if n - 1 in dead then 0 else Tally(g[n - 1], c);
    }
  }

  /** The length of a transposed row is the number of mentions. */
  lemma SizeIsMentions(g: Table, t: Table, dead: set<int>, c: int)
    requires Exact(g, t, dead) && 0 <= c < |g| && c !in dead
    ensures |t[c]| == LiveMentions(g, dead, c, |g|)
  {
    RowRange(t, |g|, c);
    TotalIsSize(t[c], |g|);
    TotalIsMentions(g, t, dead, c, |g|);
  }

  /** A row mentions a node as often as the renumbered row mentions its new number. */
  lemma {:induction false} TallyMapped(row: seq<int>, flag: seq<bool>, V: int, c: int)
    requires 0 <= V && RowIn(row, V + |flag|) && NoneDropped(row, flag, V) && 0 <= c < V + |flag|
    requires !Dropped(flag, V, c)
    ensures Tally(Mapped(row, flag, V), Renumber(flag, V, c)) == Tally(row, c)
  {
    if row != [] {
      var k := |row| - 1;
      TallyMapped(row[..k], flag, V, c);
      var x := row[k];
      if x < c { RenumberGrows(flag, V, x, c); }
      if c < x { RenumberGrows(flag, V, c, x); }
      assert row == row[..k] + [x];
      assert Mapped(row, flag, V) == Mapped(row[..k], flag, V) + [Renumber(flag, V, x)];
    }
  }

  lemma {:induction false} MentionsLive(g: Table, flag: seq<bool>, V: int, dead: set<int>, c: int, n: int)
    requires 0 <= V && 0 <= n <= |g| == V + |flag| && InRange(g, |g|) && Closed(g, flag, V)
    requires 0 <= c < |g| && !Dropped(flag, V, c) && forall r :: 0 <= r < |g| ==> (Dropped(flag, V, r) <==> r in dead)
    ensures Mentions(Live(MapAll(g, flag, V), flag, V, n), Renumber(flag, V, c)) == LiveMentions(g, dead, c, n)
  {
    hide Mentions, Tally, Renumber, Kept, MapAll;
    var all := MapAll(g, flag, V);
    if n == 0 {
      MentionsNone(Renumber(flag, V, c));
    } else {
      MentionsLive(g, flag, V, dead, c, n - 1);
      var rest := Live(all, flag, V, n - 1);
      if Dropped(flag, V, n - 1) {
        assert rest + [] == rest;
      } else {
        MentionsMore(rest, all[n - 1], Renumber(flag, V, c));
        RowRange(g, |g|, n - 1);
        TallyMapped(g[n - 1], flag, V, c);
      }
    }
  }

  lemma MentionsNone(c: int)
    ensures Mentions([], c) == 0
  {
  }

  lemma MentionsMore(g: Table, row: seq<int>, c: int)
    ensures Mentions(g + [row], c) == Mentions(g, c) + Tally(row, c)
  {
    assert (g + [row])[..|g + [row]| - 1] == g;
  }

  // ---------- how many edges an inlining costs ----------

  /** The rows of a graph some of whose rules have been inlined, and these rules. */
  datatype Stage = Stage(rows: Table, dead: set<int>)

  /** The edges in those of the first `n` rows that are not dead. */
  ghost function LiveEdges(s: Stage, n: int): (k: nat)
    requires 0 <= n <= |s.rows|
  {
    if n == 0 then 0 else LiveEdges(s, n - 1) + if n - 1 in s.dead then 0 else |s.rows[n - 1]|
  }

  ghost function Edges(s: Stage): (k: nat) {
    LiveEdges(s, |s.rows|)
  }

  /** The graph with rule `id` inlined. */
  ghost function Without(s: Stage, id: int): (s': Stage)
    requires 0 <= id < |s.rows|
  {
    Stage(InlineRule(s.rows, s.dead, id), s.dead + {id})
  }

  /** Every mention is replaced by the row of the rule, and the rule has no row of its own any more. */
  lemma InlineCost(s: Stage, id: int)
    requires 0 <= id < |s.rows| && id !in s.dead && Tally(s.rows[id], id) == 0
    ensures var f, l := LiveMentions(s.rows, s.dead, id, |s.rows|), |s.rows[id]|;
            Edges(Without(s, id)) == Edges(s) + f * (l - 1) - l
  {
    CostUpTo(s, id, |s.rows|);
  }

  lemma {:induction false} CostUpTo(s: Stage, id: int, n: int)
    requires 0 <= id < |s.rows| && id !in s.dead && Tally(s.rows[id], id) == 0 && 0 <= n <= |s.rows|
    ensures var f, l := LiveMentions(s.rows, s.dead, id, n), |s.rows[id]|;
            LiveEdges(Without(s, id), n) == LiveEdges(s, n) + f * (l - 1) - if id < n then l else 0
  {
    hide Tally, Without, InlineRule, Filled;
    if n > 0 {
      var r, l := n - 1, |s.rows[id]|;
      CostUpTo(s, id, r);
      CostAt(s, id, r);
      AddTimes(LiveMentions(s.rows, s.dead, id, r), if r in s.dead then 0 else Tally(s.rows[r], id), l - 1);
    }
  }

  lemma CostAt(s: Stage, id: int, r: int)
    requires 0 <= id < |s.rows| && id !in s.dead && Tally(s.rows[id], id) == 0 && 0 <= r < |s.rows|
    ensures var s' := Without(s, id);
            && |s'.rows| == |s.rows| && (r in s'.dead <==> r in s.dead || r == id)
            && |s'.rows[r]| == |s.rows[r]| + (if r in s.dead then 0 else Tally(s.rows[r], id)) * (|s.rows[id]| - 1)
  {
    hide Tally, Filled;
    assert Without(s, id).rows[r] == InlineAt(s.rows, s.dead, id, r);
    if r !in s.dead {
      FilledSize(s.rows[r], id, s.rows[id], Tally(s.rows[r], id));
    }
  }

  lemma AddTimes(a: int, b: int, c: int)
    ensures (a + b) * c == a * c + b * c
  {
  }
}
