/**
 Checking a compressed graph against the original: every vertex row is expanded with a stack of rules still to be
 written out, sorted, and compared with the sorted original row.
 */
module GraphCheck {
  import opened RuleGraph
  import opened RuleTables
  import opened CsrRows

  // ---------- how much there is to expand ----------

  /** How many rules the expansion of a row goes through. */
  ghost function Weight(g: Table, V: int, h: seq<nat>, row: seq<int>, top: nat): (n: nat)
    requires Ranked(g, V, h) && RowIn(row, |g|) && forall i :: 0 <= i < |row| && V <= row[i] ==> h[row[i]] < top
    decreases top, |row|
  {
    if row == [] then 0 else
      var k := |row| - 1;
      RowOf(g, row[k]);
      Weight(g, V, h, row[..k], top) + if row[k] < V then 0 else 1 + Weight(g, V, h, g[row[k]], h[row[k]])
  }

  ghost predicate Rules(g: Table, V: int, stack: seq<int>) {
    forall i :: 0 <= i < |stack| ==> V <= stack[i] < |g|
  }

  ghost function StackWeight(g: Table, V: int, h: seq<nat>, stack: seq<int>): (n: nat)
    requires Ranked(g, V, h) && Rules(g, V, stack)
  {
    if stack == [] then 0 else
      var k := |stack| - 1;
      RowOf(g, stack[k]);
      StackWeight(g, V, h, stack[..k]) + 1 + Weight(g, V, h, g[stack[k]], h[stack[k]])
  }

  /** The vertices that the rules on the stack stand for. */
  ghost function Pending(stack: seq<int>, m: Table): (r: multiset<int>)
    requires RowIn(stack, |m|)
  {
    if stack == [] then multiset{} else Pending(stack[..|stack| - 1], m) + multiset(m[stack[|stack| - 1]])
  }

  lemma {:induction false} PendingIsFlatten(row: seq<int>, m: Table)
    requires RowIn(row, |m|)
    ensures Pending(row, m) == multiset(Flatten(row, m))
  {
    if row != [] {
      var k := |row| - 1;
      PendingIsFlatten(row[..k], m);
      FlattenConcat(row[..k], [row[k]], m);
      FlattenOne(row[k], m);
      assert row == row[..k] + [row[k]];
    }
  }

  lemma PendingMore(stack: seq<int>, x: int, m: Table)
    requires RowIn(stack, |m|) && 0 <= x < |m|
    ensures RowIn(stack + [x], |m|) && Pending(stack + [x], m) == Pending(stack, m) + multiset(m[x])
  {
    assert (stack + [x])[..|stack + [x]| - 1] == stack;
  }

  lemma StackMore(g: Table, V: int, h: seq<nat>, stack: seq<int>, x: int)
    requires Ranked(g, V, h) && Rules(g, V, stack) && V <= x < |g|
    ensures Rules(g, V, stack + [x])
    ensures StackWeight(g, V, h, stack + [x]) == StackWeight(g, V, h, stack) + 1
              + (RowOf(g, x); Weight(g, V, h, g[x], h[x]))
  {
    assert (stack + [x])[..|stack + [x]| - 1] == stack;
  }

  /** One more place of row `id`: the place adds to the vertices found, or to the stack. */
  lemma PlaceAdds(g: Table, V: int, h: seq<nat>, m: Table, id: int, i: int)
    requires Ranked(g, V, h) && Solves(g, V, m) && V <= id < |g| && 0 <= i < |g[id]|
    ensures RowIn(g[id], |g|) && RowIn(g[id][..i + 1], |m|) && 0 <= g[id][i] < |g|
    ensures (g[id][i] >= V ==> h[g[id][i]] < h[id])
    ensures Pending(g[id][..i + 1], m) == Pending(g[id][..i], m) + multiset(m[g[id][i]])
    ensures g[id][i] < V ==> multiset(m[g[id][i]]) == multiset{g[id][i]}
    ensures Weight(g, V, h, g[id][..i + 1], h[id]) ==
              Weight(g, V, h, g[id][..i], h[id]) +
              if g[id][i] < V then 0 else 1 + (RowOf(g, g[id][i]); Weight(g, V, h, g[g[id][i]], h[g[id][i]]))
  {
    var row := g[id];
    RowOf(g, id);
    assert row[..i + 1] == row[..i] + [row[i]];
    PendingMore(row[..i], row[i], m);
    assert row[..i + 1][..i] == row[..i];
  }

  /** Writes row `id` out: vertices go to the result, rules onto the stack. */
  method Unfold(result0: seq<int>, g: Table, stack0: seq<int>, id: int, V: int, ghost h: seq<nat>, ghost m: Table)
    returns (result: seq<int>, stack: seq<int>)
    requires Ranked(g, V, h) && Solves(g, V, m) && Rules(g, V, stack0) && V <= id < |g|
    ensures Rules(g, V, stack) && RowIn(g[id], |m|)
    ensures multiset(result) + Pending(stack, m) == multiset(result0) + Pending(stack0, m) + Pending(g[id], m)
    ensures StackWeight(g, V, h, stack) == StackWeight(g, V, h, stack0) + Weight(g, V, h, g[id], h[id])
  {
    hide Solves, Ranked, Pending, Weight, StackWeight;
    result, stack := result0, stack0;
    var i := 0;
    UnfoldStart(g, V, h, m, id);
    while i < |g[id]|
      invariant 0 <= i <= |g[id]| && Rules(g, V, stack) && RowIn(g[id][..i], |m|)
      invariant forall j :: 0 <= j < i && V <= g[id][..i][j] ==> 0 <= g[id][..i][j] < |h| && h[g[id][..i][j]] < h[id]
      invariant multiset(result) + Pending(stack, m) == multiset(result0) + Pending(stack0, m) + Pending(g[id][..i], m)
      invariant StackWeight(g, V, h, stack) == StackWeight(g, V, h, stack0) + Weight(g, V, h, g[id][..i], h[id])
    {
      PlaceAdds(g, V, h, m, id, i);
      var dst := g[id][i];
      Regroup(multiset(result), Pending(stack, m), multiset(result0) + Pending(stack0, m), Pending(g[id][..i], m),
              multiset(m[dst]));
      if dst >= V {
        PendingMore(stack, dst, m);
        StackMore(g, V, h, stack, dst);
        stack := stack + [dst];
      } else {
        assert multiset(result + [dst]) == multiset(result) + multiset{dst};
        result := result + [dst];
      }
      i := i + 1;
    }
    assert g[id][..i] == g[id];
  }

  lemma Regroup(a: multiset<int>, b: multiset<int>, c: multiset<int>, d: multiset<int>, x: multiset<int>)
    requires a + b == c + d
    ensures a + (b + x) == c + (d + x) && (a + x) + b == c + (d + x)
  {
    assert a + (b + x) == (a + b) + x && (a + x) + b == (a + b) + x && c + (d + x) == (c + d) + x;
  }

  lemma UnfoldStart(g: Table, V: int, h: seq<nat>, m: Table, id: int)
    requires Ranked(g, V, h) && Solves(g, V, m) && V <= id < |g|
    ensures |m| == |g| == |h| && RowIn(g[id], |g|) && g[id][..0] == [] && 0 <= V
    ensures Pending([], m) == multiset{} && Weight(g, V, h, [], h[id]) == 0
    ensures forall j :: 0 <= j < |g[id]| && V <= g[id][j] ==> h[g[id][j]] < h[id]
  {
    RowOf(g, id);
  }

  /** Empties the stack into the result. */
  method PushSuccessors(result0: seq<int>, g: Table, stack0: seq<int>, V: int, ghost h: seq<nat>,
                        ghost m: Table)
    returns (result: seq<int>)
    requires Ranked(g, V, h) && Solves(g, V, m) && Rules(g, V, stack0)
    ensures RowIn(stack0, |m|) && multiset(result) == multiset(result0) + Pending(stack0, m)
  {
    hide Solves, Ranked, Weight, StackWeight, Pending;
    result := result0;
    var stack := stack0;
    StackIn(g, V, h, m, stack);
    while |stack| > 0
      invariant Rules(g, V, stack) && RowIn(stack, |m|)
                && multiset(result) + Pending(stack, m) == multiset(result0) + Pending(stack0, m)
      decreases StackWeight(g, V, h, stack)
    {
      var id := stack[|stack| - 1];
      var rest := stack[..|stack| - 1];
      TopOff(g, V, h, m, stack);
      Regroup(multiset(result), Pending(rest, m), multiset(result), Pending(rest, m), multiset(m[id]));
      ghost var before := result;
      result, stack := Unfold(result, g, rest, id, V, h, m);
      StackIn(g, V, h, m, stack);
    }
    PendingNone(m);
  }

  lemma PendingNone(m: Table)
    ensures Pending([], m) == multiset{}
  {
  }

  lemma StackIn(g: Table, V: int, h: seq<nat>, m: Table, stack: seq<int>)
    requires Ranked(g, V, h) && Solves(g, V, m) && Rules(g, V, stack)
    ensures RowIn(stack, |m|) && |m| == |g|
  {
  }

  /** The top of the stack stands for its row. */
  lemma TopOff(g: Table, V: int, h: seq<nat>, m: Table, stack: seq<int>)
    requires Ranked(g, V, h) && Solves(g, V, m) && Rules(g, V, stack) && stack != []
    ensures var id, rest := stack[|stack| - 1], stack[..|stack| - 1];
            && V <= id < |g| == |m| && Rules(g, V, rest) && RowIn(stack, |m|) && RowIn(rest, |m|) && RowIn(g[id], |m|)
            && Pending(stack, m) == Pending(rest, m) + multiset(m[id]) && multiset(m[id]) == Pending(g[id], m)
            && StackWeight(g, V, h, stack) > StackWeight(g, V, h, rest) + Weight(g, V, h, g[id], h[id])
  {
    var id := stack[|stack| - 1];
    RowOf(g, id);
    PendingIsFlatten(g[id], m);
  }

  /** The vertices that row `v` stands for, in the order in which the stack yields them. */
  method CompressSuccessors(g: Table, v: int, V: int, ghost h: seq<nat>, ghost m: Table) returns (re: seq<int>)
    requires Ranked(g, V, h) && Solves(g, V, m) && 0 <= v < V <= |g|
    ensures RowIn(g[v], |m|) && multiset(re) == multiset(Flatten(g[v], m))
  {
    hide Solves, Ranked, Flatten, Pending;
    re := [];
    var i := 0;
    RowStart(g, V, h, m, v);
    while i < |g[v]|
      invariant 0 <= i <= |g[v]| && RowIn(g[v][..i], |m|) && multiset(re) == Pending(g[v][..i], m)
    {
      var dst := g[v][i];
      assert g[v][..i + 1] == g[v][..i] + [dst];
      PendingMore(g[v][..i], dst, m);
      if dst >= V {
        PendingMore([], dst, m);
        PendingNone(m);
        assert [] + [dst] == [dst];
        re := PushSuccessors(re, g, [dst], V, h, m);
      } else {
        VertexAlone(g, V, m, dst);
        re := re + [dst];
      }
      i := i + 1;
    }
    assert g[v][..i] == g[v];
    PendingIsFlatten(g[v], m);
  }

  lemma VertexAlone(g: Table, V: int, m: Table, x: int)
    requires Solves(g, V, m) && 0 <= x < V <= |g|
    ensures m[x] == [x]
  {
  }

  lemma RowStart(g: Table, V: int, h: seq<nat>, m: Table, v: int)
    requires Ranked(g, V, h) && Solves(g, V, m) && 0 <= v < V <= |g|
    ensures |m| == |g| && RowIn(g[v], |m|) && g[v][..0] == [] && Pending([], m) == multiset{}
  {
  }

  // ---------- sorting ----------

  ghost predicate Ascending(s: seq<int>) {
    forall i, j :: 0 <= i < j < |s| ==> s[i] <= s[j]
  }

  /** `s`, sorted. */
  function Sort(s: seq<int>): (r: seq<int>)
    ensures Ascending(r) && multiset(r) == multiset(s)
  {
    if s == [] then [] else
      assert s == [s[0]] + s[1..];
      InsertElements(s[0], Sort(s[1..]));
      Insert(s[0], Sort(s[1..]))
  }

  function Insert(x: int, s: seq<int>): (r: seq<int>)
    requires Ascending(s)
    ensures Ascending(r) && r != [] && (r[0] == x || (s != [] && r[0] == s[0]))
  {
    if s == [] || x <= s[0] then [x] + s else [s[0]] + Insert(x, s[1..])
  }

  lemma {:induction false} InsertElements(x: int, s: seq<int>)
    requires Ascending(s)
    ensures multiset(Insert(x, s)) == multiset(s) + multiset{x}
  {
    if s != [] && x > s[0] {
      InsertElements(x, s[1..]);
      assert s == [s[0]] + s[1..];
    }
  }

  /** Two sorted lists with the same elements are the same. */
  lemma {:induction false} SortedSame(a: seq<int>, b: seq<int>)
    requires Ascending(a) && Ascending(b) && multiset(a) == multiset(b)
    ensures a == b
  {
    assert |multiset(a)| == |multiset(b)|;
    if a != [] {
      HeadAtMost(a, b);
      HeadAtMost(b, a);
      Tail(a);
      Tail(b);
      SortedSame(a[1..], b[1..]);
      assert a == [a[0]] + a[1..] && b == [b[0]] + b[1..];
    }
  }

  lemma HeadAtMost(a: seq<int>, b: seq<int>)
    requires Ascending(b) && a != [] && b != [] && multiset(a) == multiset(b)
    ensures b[0] <= a[0]
  {
    assert a[0] in multiset(b);
    var j :| 0 <= j < |b| && b[j] == a[0];
  }

  lemma Tail(a: seq<int>)
    requires a != []
    ensures multiset(a[1..]) == multiset(a) - multiset{a[0]}
  {
    assert a == [a[0]] + a[1..];
  }

  method Compare(a: seq<int>, b: seq<int>) returns (same: bool)
    ensures same <==> multiset(a) == multiset(b)
  {
    var x, y := Sort(a), Sort(b);
    same := x == y;
    if multiset(a) == multiset(b) {
      SortedSame(x, y);
    }
  }

  // ---------- the check ----------

  /** True exactly when every vertex stands for its original neighbours. */
  method CheckCsr(vlist: seq<int>, elist: seq<int>, cvlist: seq<int>, celist: seq<int>, V: int, ruleCount: int,
                  ghost h: seq<nat>)
    returns (ok: bool)
    requires Readable(vlist, elist) && Readable(cvlist, celist) && 0 <= V && 0 <= ruleCount
    requires (V == 0 || V < |vlist|) && (V + ruleCount == 0 || V + ruleCount < |cvlist|)
    requires Ranked(Rows(cvlist, celist, V + ruleCount), V, h)
    ensures var g := Rows(cvlist, celist, V + ruleCount);
            ok <==> forall v :: 0 <= v < V ==>
                      (RowOf(g, v); multiset(Row(vlist, elist, v)) == multiset(Flatten(g[v], Meaning(g, V, h))))
  {
    hide Readable, Ranked, Meaning, Flatten, InRange;
    var graph := Load(vlist, elist, V);
    var g := Load(cvlist, celist, V + ruleCount);
    ghost var m := Meaning(g, V, h);
    MeaningSolves(g, V, h);
    RankedRange(g, V, h);
    var v := 0;
    while v < V
      invariant 0 <= v <= V && |m| == |g|
      invariant forall x :: 0 <= x < v ==> (RowOf(g, x); multiset(Row(vlist, elist, x)) == multiset(Flatten(g[x], m)))
    {
      var re := CompressSuccessors(g, v, V, h, m);
      var same := Compare(graph[v], re);
      if !same {
        return false;
      }
      v := v + 1;
    }
    return true;
  }
}
