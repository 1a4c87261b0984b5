/**
 Graphs with rules: row `r` lists what node `r` refers to.  Nodes below `V` are vertices, the others are rules.  A rule
 stands for the vertices that its row stands for, one after the other.
 */
module RuleGraph {
  type Table = seq<seq<int>>

  ghost predicate InRange(g: Table, n: int) {
    forall r, i {:trigger g[r][i]} :: 0 <= r < |g| && 0 <= i < |g[r]| ==> 0 <= g[r][i] < n
  }

  ghost predicate RowIn(row: seq<int>, n: int) {
    forall i :: 0 <= i < |row| ==> 0 <= row[i] < n
  }

  /** What a row stands for when node `s` stands for `m[s]`. */
  ghost function Flatten(row: seq<int>, m: Table): (t: seq<int>)
    requires RowIn(row, |m|)
  {
    if row == [] then [] else m[row[0]] + Flatten(row[1..], m)
  }

  /** `m` gives every node a meaning: a vertex stands for itself, a rule for its row. */
  ghost predicate Solves(g: Table, V: int, m: Table) {
    && |m| == |g| && InRange(g, |g|)
    && forall s :: 0 <= s < |g| ==> m[s] == if s < V then [s] else (RowOf(g, s); Flatten(g[s], m))
  }

  lemma RowOf(g: Table, s: int)
    requires InRange(g, |g|) && 0 <= s < |g|
    ensures RowIn(g[s], |g|)
  {
  }

  /** The rules are not circular: `h` falls from a rule to the rules in its row. */
  ghost predicate Ranked(g: Table, V: int, h: seq<nat>) {
    && |h| == |g| && 0 <= V && InRange(g, |g|)
    && forall r, i {:trigger g[r][i]} :: V <= r < |g| && 0 <= i < |g[r]| && V <= g[r][i] ==> h[g[r][i]] < h[r]
  }

  // ---------- every graph without circles has exactly one meaning ----------

  /** What a row stands for, followed down the rules; the rules in it rank below `top`. */
  ghost function Expand(g: Table, V: int, h: seq<nat>, row: seq<int>, top: nat): (t: seq<int>)
    requires Ranked(g, V, h) && RowIn(row, |g|) && forall i :: 0 <= i < |row| && V <= row[i] ==> h[row[i]] < top
    decreases top, |row|
  {
    if row == [] then [] else
      RowOf(g, row[0]);
      (if row[0] < V then [row[0]] else Expand(g, V, h, g[row[0]], h[row[0]])) + Expand(g, V, h, row[1..], top)
  }

  /** The meaning, node by node. */
  ghost function Meaning(g: Table, V: int, h: seq<nat>): (m: Table)
    requires Ranked(g, V, h)
    ensures |m| == |g|
    ensures forall s :: 0 <= s < |g| ==> m[s] == if s < V then [s] else (RowOf(g, s); Expand(g, V, h, g[s], h[s]))
  {
    seq(|g|, s requires 0 <= s < |g| => if s < V then [s] else (RowOf(g, s); Expand(g, V, h, g[s], h[s])))
  }

  lemma {:induction false} ExpandFlattens(g: Table, V: int, h: seq<nat>, row: seq<int>, top: nat)
    requires Ranked(g, V, h) && RowIn(row, |g|) && forall i :: 0 <= i < |row| && V <= row[i] ==> h[row[i]] < top
    ensures Expand(g, V, h, row, top) == Flatten(row, Meaning(g, V, h))
  {
    if row != [] {
      ExpandFlattens(g, V, h, row[1..], top);
    }
  }

  lemma MeaningSolves(g: Table, V: int, h: seq<nat>)
    requires Ranked(g, V, h)
    ensures Solves(g, V, Meaning(g, V, h))
  {
    forall s | V <= s < |g| ensures Meaning(g, V, h)[s] == (RowOf(g, s); Flatten(g[s], Meaning(g, V, h))) {
      RowOf(g, s);
      ExpandFlattens(g, V, h, g[s], h[s]);
    }
  }

  lemma {:induction false} MeaningUnique(g: Table, V: int, h: seq<nat>, m: Table, m': Table, s: int)
    requires Ranked(g, V, h) && Solves(g, V, m) && Solves(g, V, m') && 0 <= s < |g|
    ensures m[s] == m'[s]
    decreases h[s]
  {
    if V <= s {
      RowOf(g, s);
      forall i | 0 <= i < |g[s]| ensures m[g[s][i]] == m'[g[s][i]] {
        if V <= g[s][i] {
          MeaningUnique(g, V, h, m, m', g[s][i]);
        }
      }
      FlattenSame(g[s], m, m');
    }
  }

  lemma {:induction false} FlattenSame(row: seq<int>, m: Table, m': Table)
    requires |m| == |m'| && RowIn(row, |m|) && forall i :: 0 <= i < |row| ==> m[row[i]] == m'[row[i]]
    ensures Flatten(row, m) == Flatten(row, m')
  {
    if row != [] {
      FlattenSame(row[1..], m, m');
    }
  }

  lemma {:induction false} FlattenConcat(a: seq<int>, b: seq<int>, m: Table)
    requires RowIn(a, |m|) && RowIn(b, |m|)
    ensures RowIn(a + b, |m|) && Flatten(a + b, m) == Flatten(a, m) + Flatten(b, m)
  {
    if a == [] {
      assert a + b == b;
    } else {
      FlattenConcat(a[1..], b, m);
      assert (a + b)[1..] == a[1..] + b;
    }
  }

  // ---------- putting a body in place of a symbol ----------

  function Splice(row: seq<int>, k: int, body: seq<int>): (r: seq<int>)
    requires 0 <= k < |row|
  {
    row[..k] + body + row[k + 1..]
  }

  lemma FlattenSplice(row: seq<int>, k: int, body: seq<int>, m: Table)
    requires 0 <= k < |row| && RowIn(row, |m|) && RowIn(body, |m|) && m[row[k]] == Flatten(body, m)
    ensures RowIn(Splice(row, k, body), |m|) && Flatten(Splice(row, k, body), m) == Flatten(row, m)
  {
    var a, b := row[..k], row[k + 1..];
    FlattenThree(a, body, b, m);
    FlattenThree(a, [row[k]], b, m);
    FlattenOne(row[k], m);
    hide Flatten;
    assert row == a + [row[k]] + b;
  }

  lemma FlattenOne(x: int, m: Table)
    requires 0 <= x < |m|
    ensures Flatten([x], m) == m[x]
  {
    assert [x][1..] == [];
  }

  lemma FlattenThree(a: seq<int>, b: seq<int>, c: seq<int>, m: Table)
    requires RowIn(a, |m|) && RowIn(b, |m|) && RowIn(c, |m|)
    ensures RowIn(a + b + c, |m|) && Flatten(a + b + c, m) == Flatten(a, m) + Flatten(b, m) + Flatten(c, m)
  {
    hide Flatten;
    FlattenConcat(a, b, m);
    FlattenConcat(a + b, c, m);
  }

  /** How often `x` occurs in a row. */
  function Tally(row: seq<int>, x: int): (k: nat) {
    multiset(row)[x]
  }

  lemma TallySplice(row: seq<int>, k: int, body: seq<int>, x: int)
    requires 0 <= k < |row|
    ensures Tally(Splice(row, k, body), x) == Tally(row, x) + Tally(body, x) - if row[k] == x then 1 else 0
  {
    assert row == row[..k] + [row[k]] + row[k + 1..];
  }

  lemma TallyIn(row: seq<int>, x: int)
    ensures Tally(row, x) > 0 <==> exists i :: 0 <= i < |row| && row[i] == x
  {
    assert x in multiset(row) <==> x in row;
  }

  lemma TallyPrefix(row: seq<int>, i: int, x: int)
    requires 0 <= i < |row|
    ensures Tally(row[..i + 1], x) == Tally(row[..i], x) + if row[i] == x then 1 else 0
    ensures Tally(row[..i + 1], x) <= Tally(row, x)
  {
    assert row[..i + 1] == row[..i] + [row[i]];
    assert row == row[..i + 1] + row[i + 1..];
  }

  /** The first place of `x`, or the end. */
  function Find(row: seq<int>, x: int): (k: int)
    ensures 0 <= k <= |row| && (k < |row| ==> row[k] == x) && forall j :: 0 <= j < k ==> row[j] != x
  {
    if row == [] then 0 else if row[0] == x then 0 else 1 + Find(row[1..], x)
  }

  lemma Found(row: seq<int>, x: int)
    requires Tally(row, x) > 0
    ensures Find(row, x) < |row|
  {
    TallyIn(row, x);
  }
}
