/**
 Compressing the rows of a graph in compressed sparse row form.

 The rows are written one after the other, each followed by a separator of its own, and the whole is compressed as
 one text.  What comes out is again in compressed sparse row form: the shortened rows, then one row per rule.
 */
module CsrCompress {
  import opened RecordTable
  import opened TextThread
  import opened CsrRows
  import opened Grammar
  import opened HashTable
  import opened PairIndexes
  import opened RePair

  // ---------- rows in, rows out ----------

  /** Each row followed by its separator; the separators count up from `sep`. */
  ghost function Weave(rows: seq<seq<int>>, sep: int): (t: seq<int>) {
    if rows == [] then [] else
      var k := |rows| - 1;
      Weave(rows[..k], sep) + rows[k] + [sep + k]
  }

  /** Every symbol of every row is a vertex. */
  ghost predicate Vertices(rows: seq<seq<int>>, max: int) {
    forall v, i :: 0 <= v < |rows| && 0 <= i < |rows[v]| ==> 0 <= rows[v][i] < max
  }

  /** Cutting the woven text at its separators gives the rows back. */
  lemma {:induction false} WeaveSplit(rows: seq<seq<int>>, sep: int, hi: int)
    requires Vertices(rows, sep) && sep + |rows| <= hi
    ensures Split(Weave(rows, sep), sep, hi) == rows + [[]]
  {
    if rows != [] {
      var k := |rows| - 1;
      var front := Weave(rows[..k], sep);
      WeaveSplit(rows[..k], sep, hi);
      SplitUncut(front, rows[k], sep, hi);
      var t := front + rows[k];
      assert (t + [sep + k])[..|t + [sep + k]| - 1] == t;
      assert [] + rows[k] == rows[k];
      assert Widened(rows[..k] + [[]], rows[k]) == rows;
    }
  }

  lemma {:induction false} TimesConcat(a: seq<int>, b: seq<int>, s: int)
    ensures Times(a + b, s) == Times(a, s) + Times(b, s)
  {
    if a == [] {
      assert a + b == b;
    } else {
      TimesConcat(a[1..], b, s);
      assert (a + b)[1..] == a[1..] + b;
    }
  }

  lemma {:induction false} TimesAbsent(t: seq<int>, s: int)
    requires forall i :: 0 <= i < |t| ==> t[i] != s
    ensures Times(t, s) == 0
  {
    if t != [] {
      TimesAbsent(t[1..], s);
    }
  }

  /** Each separator occurs once, and no other symbol from `sep` on. */
  lemma {:induction false} WeaveTimes(rows: seq<seq<int>>, sep: int, s: int)
    requires Vertices(rows, sep) && sep <= s
    ensures Times(Weave(rows, sep), s) == if s < sep + |rows| then 1 else 0
  {
    if rows != [] {
      var k := |rows| - 1;
      var front := Weave(rows[..k], sep);
      WeaveTimes(rows[..k], sep, s);
      TimesAbsent(rows[k], s);
      TimesConcat(front, rows[k], s);
      TimesConcat(front + rows[k], [sep + k], s);
      assert [sep + k][1..] == [];
    }
  }

  lemma {:induction false} WeaveSymbols(rows: seq<seq<int>>, sep: int)
    requires Vertices(rows, sep) && 0 <= sep
    ensures forall i :: 0 <= i < |Weave(rows, sep)| ==> 0 <= Weave(rows, sep)[i] < sep + |rows|
  {
    if rows != [] {
      WeaveSymbols(rows[..|rows| - 1], sep);
    }
  }

  /** The symbol under which the result refers to a vertex or a rule. */
  function Name(s: int, max: int): (r: int) {
    if s < max then s else s - max
  }

  ghost function Names(t: seq<int>, max: int): (r: seq<int>)
    ensures |r| == |t| && forall i :: 0 <= i < |t| ==> r[i] == Name(t[i], max)
  {
    seq(|t|, i requires 0 <= i < |t| => Name(t[i], max))
  }

  ghost function NamedRows(rows: seq<seq<int>>, max: int): (r: seq<seq<int>>)
    ensures |r| == |rows| && forall i :: 0 <= i < |rows| ==> r[i] == Names(rows[i], max)
  {
    seq(|rows|, i requires 0 <= i < |rows| => Names(rows[i], max))
  }

  ghost function NamedRules(rules: seq<Pair>, max: int): (r: seq<Pair>)
    ensures |r| == |rules|
    ensures forall i :: 0 <= i < |rules| ==> r[i] == Pair(Name(rules[i].left, max), Name(rules[i].right, max))
  {
    seq(|rules|, i requires 0 <= i < |rules| => Pair(Name(rules[i].left, max), Name(rules[i].right, max)))
  }

  lemma NamedStep(rows: seq<seq<int>>, x: int, max: int, alph: int)
    requires |rows| >= 1
    ensures max <= x < alph ==> NamedRows(Followed(rows, x, max, alph), max) == NamedRows(rows, max) + [[]]
    ensures !(max <= x < alph) ==>
              NamedRows(Followed(rows, x, max, alph), max) == Widened(NamedRows(rows, max), [Name(x, max)])
  {
    if max <= x < alph {
      assert Names([], max) == [];
    } else {
      var last := rows[|rows| - 1];
      assert Names(last + [x], max) == Names(last, max) + [Name(x, max)];
    }
  }

  /** The rows of the rules. */
  ghost function RuleRows(rules: seq<Pair>): (r: seq<seq<int>>)
    ensures |r| == |rules| && forall i :: 0 <= i < |rules| ==> r[i] == [rules[i].left, rules[i].right]
  {
    seq(|rules|, i requires 0 <= i < |rules| => [rules[i].left, rules[i].right])
  }

  // ---------- the methods ----------

  /** Weaves the rows into one text. */
  method InsertSplitters(vlist: seq<int>, elist: seq<int>, max: int) returns (re: seq<int>)
    requires Readable(vlist, elist)
    ensures re == Weave(Rows(vlist, elist, if |vlist| == 0 then 0 else |vlist| - 1), max)
  {
    re := [];
    if |vlist| == 0 {
      return;
    }
    var cur, v := max, 0;
    while v < |vlist| - 1
      invariant 0 <= v <= |vlist| - 1 && cur == max + v
      invariant re == Weave(Rows(vlist, elist, v), max)
    {
      WeaveStep(vlist, elist, v, max);
      re := AppendEdges(re, elist, vlist[v], vlist[v + 1]);
      re := re + [cur];
      cur, v := cur + 1, v + 1;
    }
  }

  lemma WeaveStep(vlist: seq<int>, elist: seq<int>, v: int, max: int)
    requires Readable(vlist, elist) && 0 <= v < |vlist| - 1
    ensures Weave(Rows(vlist, elist, v + 1), max) == Weave(Rows(vlist, elist, v), max) + Row(vlist, elist, v)
              + [max + v]
  {
    hide Row, Readable;
    var rows := Rows(vlist, elist, v + 1);
    assert rows[..v] == Rows(vlist, elist, v) && rows[v] == Row(vlist, elist, v);
  }

  /** Appends the edges from `start` up to `end`. */
  method AppendEdges(re: seq<int>, elist: seq<int>, start: int, end: int) returns (r: seq<int>)
    requires start < end ==> 0 <= start && end <= |elist|
    ensures r == re + if start < end then elist[start..end] else []
  {
    r := re;
    var e := start;
    while e < end
      invariant start < end ==> start <= e <= end
      invariant r == re + if start < end then elist[start..e] else []
    {
      r := r + [elist[e]];
      e := e + 1;
    }
  }

  /** Reads the compressed text off the array, cell by cell, into rows. */
  method EmitText(text: seq<int>, max: int, alph: int, ghost th: Thread) returns (v: seq<int>, e: seq<int>)
    requires Threads(text, th)
    ensures Csr(v, e) && Cells(v, e) == NamedRows(Split(Content(text, th), max, alph), max)
  {
    hide Forward, Backward, NoneBetween, Gaps;
    v, e := [0], [];
    var i := 0;
    ghost var done := [];
    assert Cells(v, e) == [[]] == NamedRows([[]], max);
    while i < |text|
      invariant Place(th, |text|, i) && 0 <= i <= |text|
      invariant Content(text, th) == done + From(text, th, i)
      invariant Csr(v, e) && Cells(v, e) == NamedRows(Split(done, max, alph), max)
    {
      ForwardAt(th, |text|, i);
      AfterIsSucc(text, th, i);
      assert done + From(text, th, i) == (done + [text[i]]) + From(text, th, th.succ[i]);
      assert (done + [text[i]])[..|done + [text[i]]| - 1] == done;
      NamedStep(Split(done, max, alph), text[i], max, alph);
      done := done + [text[i]];
      if text[i] < max {
        CellsMore(v, e, [text[i]]);
        e := e + [text[i]];
      } else if text[i] < alph {
        CellsClose(v, e);
        v := v + [|e|];
      } else {
        CellsMore(v, e, [text[i] - max]);
        e := e + [text[i] - max];
      }
      i := After(text, i);
    }
    assert done + [] == done;
  }

  /** Appends one row per rule. */
  method EmitRules(v0: seq<int>, e0: seq<int>, rules: seq<Pair>, max: int) returns (v: seq<int>, e: seq<int>)
    requires Csr(v0, e0) && v0[|v0| - 1] == |e0|
    requires forall i :: 0 <= i < |rules| ==> rules[i].left != max && rules[i].right != max
    ensures Csr(v, e) && v[|v| - 1] == |e|
    ensures Cells(v, e) == Cells(v0, e0)[..|v0| - 1] + RuleRows(NamedRules(rules, max)) + [[]]
  {
    v, e := v0, e0;
    ghost var base, ruled := Cells(v0, e0)[..|v0| - 1], RuleRows(NamedRules(rules, max));
    var i := 0;
    assert ruled[..0] == [] && Cells(v0, e0)[|v0| - 1] == [];
    while i < |rules|
      invariant 0 <= i <= |rules| && Csr(v, e) && v[|v| - 1] == |e|
      invariant Cells(v, e) == base + ruled[..i] + [[]]
    {
      var left, right := Convert(rules[i].left, max), Convert(rules[i].right, max);
      CellsMore(v, e, [left, right]);
      e := e + [left, right];
      CellsClose(v, e);
      v := v + [|e|];
      RowAdded(base, ruled, i, [left, right]);
      i := i + 1;
    }
    assert ruled[..i] == ruled;
  }

  lemma RowAdded(base: seq<seq<int>>, ruled: seq<seq<int>>, i: int, row: seq<int>)
    requires 0 <= i < |ruled| && ruled[i] == row
    ensures Widened(base + ruled[..i] + [[]], row) + [[]] == base + ruled[..i + 1] + [[]]
  {
    assert [] + row == row;
    assert ruled[..i + 1] == ruled[..i] + [row];
  }

  /** The symbol of a rule as the result refers to it. */
  function Convert(id: int, max: int): (r: int)
    ensures id != max ==> r == Name(id, max)
  {
    if id > max then id - max else id
  }

  // ---------- what the result means ----------

  ghost predicate NoCut(rules: seq<Pair>, lo: int, hi: int) {
    forall i :: 0 <= i < |rules| ==> !(lo <= rules[i].left < hi) && !(lo <= rules[i].right < hi)
  }

  /** Under their new names, the rules still refer to vertices and to earlier rules only. */
  lemma NamedGrounded(rules: seq<Pair>, max: int)
    requires Grounded(rules, 2 * max) && 0 <= max && NoCut(rules, max, 2 * max)
    ensures Grounded(NamedRules(rules, max), max)
  {
  }

  lemma {:induction false} NamedYield(rules: seq<Pair>, max: int, s: int)
    requires Grounded(rules, 2 * max) && 0 <= max && NoCut(rules, max, 2 * max) && Grounded(NamedRules(rules, max), max)
    requires 0 <= s < 2 * max + |rules| && !(max <= s < 2 * max)
    ensures Yield(NamedRules(rules, max), max, Name(s, max)) == Yield(rules, 2 * max, s)
    decreases s
  {
    if s >= 2 * max {
      NamedYield(rules, max, rules[s - 2 * max].left);
      NamedYield(rules, max, rules[s - 2 * max].right);
    }
  }

  ghost predicate Known(t: seq<int>, max: int, top: int) {
    forall i :: 0 <= i < |t| ==> 0 <= t[i] < top && !(max <= t[i] < 2 * max)
  }

  /** A row stands for the same vertices under the new names. */
  lemma {:induction false} NamedExpand(rules: seq<Pair>, max: int, t: seq<int>)
    requires Grounded(rules, 2 * max) && 0 <= max && NoCut(rules, max, 2 * max) && Grounded(NamedRules(rules, max), max)
    requires Known(t, max, 2 * max + |rules|)
    ensures Expand(NamedRules(rules, max), max, Names(t, max)) == Expand(rules, 2 * max, t)
  {
    if t != [] {
      NamedYield(rules, max, t[0]);
      NamedExpand(rules, max, t[1..]);
      assert Names(t, max)[1..] == Names(t[1..], max);
    }
  }

  lemma {:induction false} SplitKnown(t: seq<int>, max: int, top: int)
    requires forall i :: 0 <= i < |t| ==> 0 <= t[i] < top
    ensures forall v :: 0 <= v < |Split(t, max, 2 * max)| ==> Known(Split(t, max, 2 * max)[v], max, top)
  {
    if t != [] {
      SplitKnown(t[..|t| - 1], max, top);
    }
  }

  /** How often a pair occurs in the rows together. */
  ghost function RowCount(rows: seq<seq<int>>, x: Pair): (k: nat) {
    if rows == [] then 0 else RowCount(rows[..|rows| - 1], x) + Count(rows[|rows| - 1], x)
  }

  lemma {:induction false} CountLast(t: seq<int>, y: int, x: Pair)
    ensures Count(t + [y], x) == Count(t, x) + if t != [] && t[|t| - 1] == x.left && y == x.right then 1 else 0
  {
    if |t| >= 2 {
      CountLast(t[1..], y, x);
      assert (t + [y])[1..] == t[1..] + [y];
    } else if |t| == 1 {
      assert (t + [y])[1..] == [y];
    }
  }

  /** Cutting a text into rows makes no new occurrences. */
  lemma {:induction false} SplitCount(t: seq<int>, lo: int, hi: int, x: Pair)
    ensures RowCount(Split(t, lo, hi), x) <= Count(t, x)
    ensures var last := Split(t, lo, hi)[|Split(t, lo, hi)| - 1]; last != [] ==>
              t != [] && last[|last| - 1] == t[|t| - 1]
  {
    if t == [] {
      assert Split(t, lo, hi)[..0] == [];
    } else {
      var k := |t| - 1;
      SplitCount(t[..k], lo, hi, x);
      CountLast(t[..k], t[k], x);
      assert t == t[..k] + [t[k]];
      var rows := Split(t[..k], lo, hi);
      if lo <= t[k] < hi {
        assert (rows + [[]])[..|rows|] == rows;
      } else {
        var j := |rows| - 1;
        CountLast(rows[j], t[k], x);
        assert Widened(rows, [t[k]])[..j] == rows[..j];
      }
    }
  }

  /** Different symbols get different names, so pairs occur as often as before. */
  lemma {:induction false} NamesCount(t: seq<int>, max: int, top: int, x: Pair)
    requires Known(t, max, top) && 0 <= max
    ensures Count(Names(t, max), x) == Count(t, Unnamed(x, max))
  {
    if |t| >= 2 {
      NamesCount(t[1..], max, top, x);
      assert Names(t, max)[1..] == Names(t[1..], max);
    }
  }

  ghost function Unnamed(x: Pair, max: int): (y: Pair) {
    Pair(if x.left < max then x.left else x.left + max, if x.right < max then x.right else x.right + max)
  }

  lemma {:induction false} NamedCount(rows: seq<seq<int>>, max: int, top: int, x: Pair)
    requires 0 <= max && forall v :: 0 <= v < |rows| ==> Known(rows[v], max, top)
    ensures RowCount(NamedRows(rows, max), x) == RowCount(rows, Unnamed(x, max))
  {
    if rows != [] {
      var k := |rows| - 1;
      NamedCount(rows[..k], max, top, x);
      NamesCount(rows[k], max, top, x);
      assert NamedRows(rows, max)[..k] == NamedRows(rows[..k], max);
    }
  }

  /** The result, read on its own, stands for the given rows. */
  ghost predicate Faithful(rows: seq<seq<int>>, max: int, v: seq<int>, e: seq<int>, rules: seq<Pair>) {
    && Csr(v, e) && v[|v| - 1] == |e| && |v| == |rows| + |rules| + 1
    && (forall i :: 0 <= i < |rules| ==> Cells(v, e)[|rows| + i] == [rules[i].left, rules[i].right])
    && Grounded(rules, max)
    && (forall k :: 0 <= k < |rows| ==> Expand(rules, max, Cells(v, e)[k]) == rows[k])
  }

  /** No pair occurs twice in the compressed rows. */
  ghost predicate Irreducible(v: seq<int>, e: seq<int>, k: int)
    requires Csr(v, e) && 0 <= k <= |v|
  {
    forall x :: RowCount(Cells(v, e)[..k], x) <= 1
  }

  /** No separator enters a rule. */
  lemma FinalNoCut(rows: seq<seq<int>>, max: int, trace: seq<seq<int>>, rules: seq<Pair>)
    requires Vertices(rows, max) && 0 <= max && |rows| <= max && Run(trace, rules, 2 * max)
    requires trace[0] == Weave(rows, max)
    ensures NoCut(rules, max, 2 * max)
  {
    hide Run, Weave, Vertices;
    forall i | 0 <= i < |rules| ensures !(max <= rules[i].left < 2 * max) && !(max <= rules[i].right < 2 * max) {
      if max <= rules[i].left < 2 * max {
        WeaveTimes(rows, max, rules[i].left);
        OnceNoRule(trace, rules, 2 * max, rules[i].left, i);
      }
      if max <= rules[i].right < 2 * max {
        WeaveTimes(rows, max, rules[i].right);
        OnceNoRule(trace, rules, 2 * max, rules[i].right, i);
      }
    }
  }

  /** What the rows of the final text stand for. */
  lemma FinalRows(rows: seq<seq<int>>, max: int, trace: seq<seq<int>>, rules: seq<Pair>)
    requires Vertices(rows, max) && 0 <= max && |rows| <= max && Run(trace, rules, 2 * max)
    requires trace[0] == Weave(rows, max)
    ensures Grounded(rules, 2 * max) && NoCut(rules, max, 2 * max)
    ensures ExpandRows(rules, 2 * max, Split(trace[|rules|], max, 2 * max)) == rows + [[]]
  {
    RunGrounded(trace, rules, 2 * max);
    WeaveSymbols(rows, max);
    RunLossless(trace, rules, 2 * max, |rules|);
    FinalNoCut(rows, max, trace, rules);
    hide Run, Weave, Yield, Expand, Split;
    SplitExpand(rules, 2 * max, max, 2 * max, trace[|rules|]);
    WeaveSplit(rows, max, 2 * max);
  }

  lemma {:induction false} RunSymbols(trace: seq<seq<int>>, rules: seq<Pair>, first: int, k: int)
    requires Run(trace, rules, first) && 0 <= k < |trace| && 0 <= first
    requires forall i :: 0 <= i < |trace[0]| ==> 0 <= trace[0][i] < first
    ensures forall i :: 0 <= i < |trace[k]| ==> 0 <= trace[k][i] < first + k
  {
    if k > 0 {
      RunSymbols(trace, rules, first, k - 1);
      assert Greedy(trace[k - 1], rules[k - 1], first + k - 1, trace[k]);
      forall i | 0 <= i < |trace[k]| ensures 0 <= trace[k][i] < first + k {
        SubstMember(trace[k], first + k - 1, rules[k - 1], i);
      }
    }
  }

  lemma {:induction false} SubstMember(t: seq<int>, n: int, pr: Pair, i: int)
    requires 0 <= i < |t|
    ensures t[i] == n || t[i] in Subst(t, n, pr)
  {
    if i > 0 {
      SubstMember(t[1..], n, pr, i - 1);
    }
  }

  /** The rows and rules under their new names are faithful, and irreducible when the final text is. */
  lemma Assembled(rows: seq<seq<int>>, max: int, trace: seq<seq<int>>, rules: seq<Pair>, v: seq<int>, e: seq<int>)
    requires Vertices(rows, max) && 0 <= max && |rows| <= max && Run(trace, rules, 2 * max)
    requires trace[0] == Weave(rows, max)
    requires Csr(v, e) && v[|v| - 1] == |e|
    requires var final := NamedRows(Split(trace[|rules|], max, 2 * max), max);
             Cells(v, e) == final[..|final| - 1] + RuleRows(NamedRules(rules, max)) + [[]]
    ensures Faithful(rows, max, v, e, NamedRules(rules, max))
    ensures (forall x :: Count(trace[|rules|], x) <= 1) ==> Irreducible(v, e, |rows|)
  {
    hide Greedy, Weave, Split, Csr;
    FinalRows(rows, max, trace, rules);
    NamedGrounded(rules, max);
    WeaveSymbols(rows, max);
    RunSymbols(trace, rules, 2 * max, |rules|);
    var t := trace[|rules|];
    var cut := Split(t, max, 2 * max);
    assert |cut| == |ExpandRows(rules, 2 * max, cut)| == |rows| + 1;
    SplitKnown(t, max, 2 * max + |rules|);
    forall k | 0 <= k < |rows| ensures Expand(NamedRules(rules, max), max, Cells(v, e)[k]) == rows[k] {
      NamedExpand(rules, max, cut[k]);
      assert ExpandRows(rules, 2 * max, cut)[k] == rows[k];
    }
    if forall x :: Count(t, x) <= 1 {
      forall x ensures RowCount(Cells(v, e)[..|rows|], x) <= 1 {
        var named := NamedRows(cut, max);
        assert Cells(v, e)[..|rows|] == named[..|rows|];
        NamedCount(cut, max, 2 * max + |rules|, x);
        SplitCount(t, max, 2 * max, Unnamed(x, max));
      }
    }
  }

  /** The rows of vertices and rules are those of a greedy run on the rows woven into one text. */
  ghost predicate ByRun(rows: seq<seq<int>>, max: int, vertexRows: seq<seq<int>>, ruleRows: seq<seq<int>>) {
    exists trace, rules :: RunGives(rows, max, trace, rules, vertexRows, ruleRows)
  }

  ghost predicate RunGives(rows: seq<seq<int>>, max: int, trace: seq<seq<int>>, rules: seq<Pair>,
                           vertexRows: seq<seq<int>>, ruleRows: seq<seq<int>>) {
    && Run(trace, rules, 2 * max) && trace[0] == Weave(rows, max)
    && (2 * max + |rules| < MAX_INT || 2 * max + |Weave(rows, max)| <= MAX_INT ==>
          forall x :: Count(trace[|rules|], x) <= 1)
    && NamedRows(Split(trace[|rules|], max, 2 * max), max) == vertexRows + [[]]
    && ruleRows == RuleRows(NamedRules(rules, max))
  }

  lemma NowByRun(rows: seq<seq<int>>, max: int, trace: seq<seq<int>>, rules: seq<Pair>, v: seq<int>, e: seq<int>,
                 final: seq<seq<int>>)
    requires Run(trace, rules, 2 * max) && trace[0] == Weave(rows, max)
    requires 2 * max + |rules| < MAX_INT || 2 * max + |Weave(rows, max)| <= MAX_INT ==>
               forall x :: Count(trace[|rules|], x) <= 1
    requires final == NamedRows(Split(trace[|rules|], max, 2 * max), max)
    requires |final| == |rows| + 1 && final[|rows|] == []
    requires Csr(v, e) && Cells(v, e) == final[..|rows|] + RuleRows(NamedRules(rules, max)) + [[]]
    ensures |v| - 1 == |rows| + |rules| && ByRun(rows, max, Cells(v, e)[..|rows|], Cells(v, e)[|rows|..|v| - 1])
  {
    hide Run, Weave, Split, Csr, Count;
    var vertexRows, ruleRows := Cells(v, e)[..|rows|], Cells(v, e)[|rows|..|v| - 1];
    assert vertexRows == final[..|rows|] && ruleRows == RuleRows(NamedRules(rules, max));
    assert final == vertexRows + [[]];
    assert RunGives(rows, max, trace, rules, vertexRows, ruleRows);
  }

  /** Some run on the woven text stops because a hash search never ends. */
  ghost predicate Stuck(rows: seq<seq<int>>, max: int) {
    exists trace, rules, t :: Stalls(Weave(rows, max), 2 * max, trace, rules, t)
  }

  /**
   The whole compression.  `rules` are the rules as the last rows of the result give them.  `ok` is false when a hash
   search never ends, which takes a text that saves many symbols.
   */
  method CompressCsr(vlist: seq<int>, elist: seq<int>, max: int)
    returns (ok: bool, v: seq<int>, e: seq<int>, vertexCount: int, ruleCount: int, ghost rules: seq<Pair>)
    requires Readable(vlist, elist) && 0 <= 2 * max <= MAX_INT
    requires var rows := Rows(vlist, elist, if |vlist| == 0 then 0 else |vlist| - 1);
             Vertices(rows, max) && |rows| <= max && |Weave(rows, max)| <= MAX_INT
    ensures var rows := Rows(vlist, elist, if |vlist| == 0 then 0 else |vlist| - 1);
            && (3 * |Weave(rows, max)| <= 131072 ==> ok)
            && (ok ==> Faithful(rows, max, v, e, rules) && forall s :: max <= s < max + |rules| ==>
                 Used(Cells(v, e), s))
            && (ok && (2 * max + |rules| < MAX_INT || 2 * max + |Weave(rows, max)| <= MAX_INT) ==>
                  Irreducible(v, e, |rows|))
    ensures var rows := Rows(vlist, elist, if |vlist| == 0 then 0 else |vlist| - 1);
            if ok then |rows| <= |v| - 1 && ByRun(rows, max, Cells(v, e)[..|rows|], Cells(v, e)[|rows|..|v| - 1])
            else Stuck(rows, max)
    ensures vertexCount == |vlist| - 1
    ensures ok ==> (ruleCount == |rules| <==> |vlist| >= 1)
  {
    hide Readable, Weave, Rows, Vertices, Greedy, Csr, Faithful, Irreducible, Chained, Gaps, Content, Split, Stalls,
         ByRun;
    v, e, ruleCount, rules := [0], [], 0, [];
    vertexCount := |vlist| - 1;
    ghost var rows := Rows(vlist, elist, if |vlist| == 0 then 0 else |vlist| - 1);
    var inter := InsertSplitters(vlist, elist, max);
    WeaveSymbols(rows, max);
    var text, rule;
    ghost var th, trace;
    ok, text, rule, th, trace := Compress(inter, 2 * max);
    if !ok { return; }
    v, e := EmitText(text, max, 2 * max, th);
    LastRow(rows, max, trace, rule, v, e);
    ghost var final := Cells(v, e);
    v, e := EmitRules(v, e, rule, max);
    NowByRun(rows, max, trace, rule, v, e, final);
    Assembled(rows, max, trace, rule, v, e);
    forall s | max <= s < max + |rule| ensures Used(Cells(v, e), s) {
      RuleUsed(rows, max, trace, rule, Cells(v, e), s - max);
    }
    rules := NamedRules(rule, max);
    ruleCount := |v| - |vlist|;
    FaithfulSize(rows, max, v, e, rules);
  }

  lemma FaithfulSize(rows: seq<seq<int>>, max: int, v: seq<int>, e: seq<int>, rules: seq<Pair>)
    requires Faithful(rows, max, v, e, rules)
    ensures |v| == |rows| + |rules| + 1 && Csr(v, e) && v[|v| - 1] == |e| && Grounded(rules, max)
  {
  }

  /** Some row mentions `x`. */
  ghost predicate Used(rows: seq<seq<int>>, x: int) {
    exists r, i :: 0 <= r < |rows| && 0 <= i < |rows[r]| && rows[r][i] == x
  }

  lemma {:induction false} SplitUses(t: seq<int>, lo: int, hi: int, x: int)
    requires x in t && !(lo <= x < hi)
    ensures Used(Split(t, lo, hi), x)
  {
    var k := |t| - 1;
    var rows := Split(t[..k], lo, hi);
    var rows' := Split(t, lo, hi);
    if t[k] == x {
      var last := rows'[|rows'| - 1];
      assert rows'[|rows'| - 1][|last| - 1] == x;
    } else {
      assert t == t[..k] + [t[k]];
      SplitUses(t[..k], lo, hi, x);
      var r, i :| 0 <= r < |rows| && 0 <= i < |rows[r]| && rows[r][i] == x;
      assert rows'[r][i] == x;
    }
  }

  /** Every rule of the result is mentioned in some row of it. */
  lemma RuleUsed(rows: seq<seq<int>>, max: int, trace: seq<seq<int>>, rules: seq<Pair>, cells: seq<seq<int>>, k: int)
    requires Run(trace, rules, 2 * max) && 0 <= max && 0 <= k < |rules|
    requires var final := NamedRows(Split(trace[|rules|], max, 2 * max), max);
             |final| == |rows| + 1 && final[|rows|] == []
             && cells == final[..|rows|] + RuleRows(NamedRules(rules, max)) + [[]]
    ensures Used(cells, max + k)
  {
    hide Run, Split;
    var s := 2 * max + k;
    TraceSize(trace, rules, 2 * max);
    SymbolStays(trace, rules, 2 * max, k, |rules|);
    var cut := Split(trace[|rules|], max, 2 * max);
    if s in trace[|rules|] {
      SplitUses(trace[|rules|], max, 2 * max, s);
      var r, i :| 0 <= r < |cut| && 0 <= i < |cut[r]| && cut[r][i] == s;
      assert NamedRows(cut, max)[r][i] == max + k;
      assert cells[r][i] == max + k;
    } else {
      var l :| k < l < |rules| && 0 <= l < |rules| && (rules[l].left == s || rules[l].right == s);
      var pair := NamedRules(rules, max)[l];
      assert cells[|rows| + l] == [pair.left, pair.right];
      assert cells[|rows| + l][if rules[l].left == s then 0 else 1] == max + k;
    }
  }

  lemma TraceSize(trace: seq<seq<int>>, rules: seq<Pair>, first: int)
    requires Run(trace, rules, first)
    ensures |trace| == |rules| + 1
  {
    hide Greedy;
  }

  lemma EmptyRun(trace: seq<seq<int>>, rules: seq<Pair>, first: int)
    requires Run(trace, rules, first) && trace[0] == []
    ensures rules == []
  {
    hide Run;
    if rules != [] {
      TraceShrinks(trace, rules, first, 0);
    }
  }

  /** Behind the last separator nothing is left. */
  lemma LastRow(rows: seq<seq<int>>, max: int, trace: seq<seq<int>>, rules: seq<Pair>, v: seq<int>, e: seq<int>)
    requires Vertices(rows, max) && 0 <= max && |rows| <= max && Run(trace, rules, 2 * max)
    requires trace[0] == Weave(rows, max)
    requires Csr(v, e) && Cells(v, e) == NamedRows(Split(trace[|rules|], max, 2 * max), max)
    ensures v[|v| - 1] == |e| && |Cells(v, e)| == |rows| + 1 && Cells(v, e)[|rows|] == []
    ensures forall i :: 0 <= i < |rules| ==> rules[i].left != max && rules[i].right != max
  {
    hide Greedy, Split, Vertices;
    FinalRows(rows, max, trace, rules);
    if max == 0 {
      EmptyRun(trace, rules, 0);
    }
    var cut := Split(trace[|rules|], max, 2 * max);
    assert Expand(rules, 2 * max, cut[|cut| - 1]) == ExpandRows(rules, 2 * max, cut)[|cut| - 1] == [];
    assert Cells(v, e)[|v| - 1] == [];
  }
}
