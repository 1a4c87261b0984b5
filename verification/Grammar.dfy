/**
 Texts, pairs and straight-line grammars: what a run of Re-Pair is, and what its rules stand for.

 A run starts from a text over the symbols below `first`; its round number `i` replaces a pair by the symbol
 `first + i`.  The rules of a run form a grammar: rule `i` says which pair the symbol `first + i` stands for.
 */
module Grammar {
  import opened RecordTable
  import opened TextThread
  import opened CsrRows

  /** `pr` occurs at least twice in `t`, and no pair more often. */
  ghost predicate Favourite(t: seq<int>, pr: Pair) {
    Count(t, pr) >= 2 && forall x :: Count(t, x) <= Count(t, pr)
  }

  /** One round: a most frequent pair of `t` gives way to the fresh symbol `n`, until it occurs no more. */
  ghost predicate Greedy(t: seq<int>, pr: Pair, n: int, t': seq<int>) {
    && Favourite(t, pr) && (forall i :: 0 <= i < |t| ==> 0 <= t[i] < n)
    && Subst(t', n, pr) == t && Count(t', pr) == 0
  }

  /** `trace` lists the texts between the rounds of a run. */
  ghost predicate Run(trace: seq<seq<int>>, rules: seq<Pair>, first: int) {
    |trace| == |rules| + 1 && forall i :: 0 <= i < |rules| ==> Greedy(trace[i], rules[i], first + i, trace[i + 1])
  }

  lemma {:induction false} SubstFresh(t: seq<int>, n: int, pr: Pair)
    ensures (forall i :: 0 <= i < |t| ==> t[i] < n) ==> Subst(t, n, pr) == t
  {
    if t != [] {
      SubstFresh(t[1..], n, pr);
    }
  }

  // ---------- rounds ----------

  /** A pair that occurs is made of symbols of the text. */
  lemma {:induction false} CountSymbols(t: seq<int>, pr: Pair)
    ensures Count(t, pr) > 0 ==> pr.left in t && pr.right in t
  {
    if |t| >= 2 {
      CountSymbols(t[1..], pr);
    }
  }

  /** When the two symbols of the pair differ, the text determines the outcome of the round. */
  lemma {:induction false} Determined(a: seq<int>, b: seq<int>, n: int, pr: Pair)
    requires Subst(a, n, pr) == Subst(b, n, pr) && Count(a, pr) == 0 && Count(b, pr) == 0
    requires pr.left != pr.right && pr.left != n && pr.right != n
    ensures a == b
    decreases |a|
  {
    SubstSize(a, n, pr);
    SubstSize(b, n, pr);
    if a != [] {
      SameHead(a, b, n, pr);
      SameHead(b, a, n, pr);
      var head := if a[0] == n then 2 else 1;
      assert Subst(a[1..], n, pr) == Subst(a, n, pr)[head..];
      assert Subst(b[1..], n, pr) == Subst(b, n, pr)[head..];
      Determined(a[1..], b[1..], n, pr);
    }
  }

  lemma SameHead(a: seq<int>, b: seq<int>, n: int, pr: Pair)
    requires Subst(a, n, pr) == Subst(b, n, pr) && Count(b, pr) == 0 && a != [] && b != []
    requires pr.left != pr.right && pr.left != n && pr.right != n
    ensures a[0] == n ==> b[0] == n
  {
    if a[0] == n && b[0] != n {
      assert Subst(b, n, pr)[0] == pr.left && Subst(b, n, pr)[1] == pr.right;
      assert Subst(b[1..], n, pr)[0] == pr.right;
    }
  }

  lemma {:induction false} SubstSize(t: seq<int>, n: int, pr: Pair)
    ensures |Subst(t, n, pr)| >= |t|
    ensures n in t ==> |Subst(t, n, pr)| > |t|
  {
    if t != [] {
      SubstSize(t[1..], n, pr);
    }
  }

  /** Every round makes the text shorter. */
  lemma RoundShrinks(t: seq<int>, pr: Pair, n: int, t': seq<int>)
    requires Greedy(t, pr, n, t')
    ensures |t'| < |t|
  {
    SubstSize(t', n, pr);
    if n !in t' {
      SubstKeeps(t', n, pr);
    }
  }

  lemma TraceShrinks(trace: seq<seq<int>>, rules: seq<Pair>, first: int, k: int)
    requires Run(trace, rules, first) && 0 <= k < |rules|
    ensures |trace| == |rules| + 1 && |trace[k + 1]| < |trace[k]|
  {
    RoundShrinks(trace[k], rules[k], first + k, trace[k + 1]);
  }

  lemma {:induction false} SubstKeeps(t: seq<int>, n: int, pr: Pair)
    requires n !in t
    ensures Subst(t, n, pr) == t
  {
    if t != [] {
      SubstKeeps(t[1..], n, pr);
    }
  }

  // ---------- what the rules stand for ----------

  /** Every rule is made of terminals and of symbols of earlier rules. */
  ghost predicate Grounded(rules: seq<Pair>, first: int) {
    0 <= first && forall i :: 0 <= i < |rules| ==> 0 <= rules[i].left < first + i && 0 <= rules[i].right < first + i
  }

  lemma RunGrounded(trace: seq<seq<int>>, rules: seq<Pair>, first: int)
    requires Run(trace, rules, first) && 0 <= first
    ensures Grounded(rules, first)
  {
    forall i | 0 <= i < |rules| ensures 0 <= rules[i].left < first + i && 0 <= rules[i].right < first + i {
      assert Greedy(trace[i], rules[i], first + i, trace[i + 1]);
      CountSymbols(trace[i], rules[i]);
    }
  }

  /** The terminals that the symbol `s` stands for. */
  ghost function Yield(rules: seq<Pair>, first: int, s: int): (r: seq<int>)
    requires Grounded(rules, first)
    ensures r != []
    decreases s
  {
    if first <= s < first + |rules| then
      Yield(rules, first, rules[s - first].left) + Yield(rules, first, rules[s - first].right)
    else
      [s]
  }

  /** The terminals that a text stands for. */
  ghost function Expand(rules: seq<Pair>, first: int, t: seq<int>): (r: seq<int>)
    requires Grounded(rules, first)
    ensures r == [] <==> t == []
  {
    if t == [] then [] else Yield(rules, first, t[0]) + Expand(rules, first, t[1..])
  }

  lemma {:induction false} ExpandConcat(rules: seq<Pair>, first: int, a: seq<int>, b: seq<int>)
    requires Grounded(rules, first)
    ensures Expand(rules, first, a + b) == Expand(rules, first, a) + Expand(rules, first, b)
  {
    hide Yield, Grounded;
    if a == [] {
      assert a + b == b;
    } else {
      ExpandConcat(rules, first, a[1..], b);
      assert (a + b)[1..] == a[1..] + b && (a + b)[0] == a[0];
    }
  }

  lemma ExpandOne(rules: seq<Pair>, first: int, x: int)
    requires Grounded(rules, first)
    ensures Expand(rules, first, [x]) == Yield(rules, first, x)
  {
    hide Yield, Grounded;
    assert [x][1..] == [];
  }

  /** A rule's symbol stands for what its two sides stand for. */
  lemma ExpandRule(rules: seq<Pair>, first: int, k: int)
    requires Grounded(rules, first) && 0 <= k < |rules|
    ensures Expand(rules, first, [rules[k].left, rules[k].right]) == Yield(rules, first, first + k)
  {
    var pr := rules[k];
    assert Yield(rules, first, first + k) == Yield(rules, first, pr.left) + Yield(rules, first, pr.right);
    hide Yield, Grounded, Expand;
    assert [pr.left, pr.right] == [pr.left] + [pr.right];
    ExpandConcat(rules, first, [pr.left], [pr.right]);
    ExpandOne(rules, first, pr.left);
    ExpandOne(rules, first, pr.right);
  }

  lemma {:induction false} ExpandTerminals(rules: seq<Pair>, first: int, t: seq<int>)
    requires Grounded(rules, first) && forall i :: 0 <= i < |t| ==> t[i] < first
    ensures Expand(rules, first, t) == t
  {
    if t != [] {
      ExpandTerminals(rules, first, t[1..]);
    }
  }

  /** Writing out one symbol does not change what the text stands for. */
  lemma {:induction false} ExpandSubst(rules: seq<Pair>, first: int, t: seq<int>, k: int)
    requires Grounded(rules, first) && 0 <= k < |rules|
    ensures Expand(rules, first, Subst(t, first + k, rules[k])) == Expand(rules, first, t)
  {
    hide Yield, Grounded;
    if t != [] {
      var n, pr := first + k, rules[k];
      var head := if t[0] == n then [pr.left, pr.right] else [t[0]];
      ExpandSubst(rules, first, t[1..], k);
      assert Subst(t, n, pr) == head + Subst(t[1..], n, pr);
      assert Expand(rules, first, t) == Yield(rules, first, t[0]) + Expand(rules, first, t[1..]);
      hide Expand, Subst;
      ExpandConcat(rules, first, head, Subst(t[1..], n, pr));
      ExpandRule(rules, first, k);
      ExpandOne(rules, first, t[0]);
    }
  }

  /** Losslessness: after any round, the text with all rules written out is the text the run began with. */
  lemma {:induction false} RunLossless(trace: seq<seq<int>>, rules: seq<Pair>, first: int, k: int)
    requires Run(trace, rules, first) && Grounded(rules, first) && 0 <= k < |trace|
    requires forall i :: 0 <= i < |trace[0]| ==> trace[0][i] < first
    ensures Expand(rules, first, trace[k]) == trace[0]
  {
    if k == 0 {
      ExpandTerminals(rules, first, trace[0]);
    } else {
      RunLossless(trace, rules, first, k - 1);
      assert Greedy(trace[k - 1], rules[k - 1], first + k - 1, trace[k]);
      ExpandSubst(rules, first, trace[k], k - 1);
    }
  }

  // ---------- symbols that occur once ----------

  ghost function Times(t: seq<int>, s: int): (k: nat) {
    if t == [] then 0 else (if t[0] == s then 1 else 0) + Times(t[1..], s)
  }

  /** A pair never occurs more often than either of its symbols. */
  lemma {:induction false} CountTimes(t: seq<int>, pr: Pair)
    ensures Count(t, pr) <= Times(t, pr.left)
    ensures Count(t, pr) + (if t != [] && t[0] == pr.right then 1 else 0) <= Times(t, pr.right)
  {
    if |t| >= 2 {
      CountTimes(t[1..], pr);
    } else if |t| == 1 {
      assert t[1..] == [];
    }
  }

  lemma {:induction false} SubstTimes(t: seq<int>, n: int, pr: Pair, s: int)
    requires s != n
    ensures Times(t, s) <= Times(Subst(t, n, pr), s)
  {
    if t != [] {
      SubstTimes(t[1..], n, pr, s);
      var rest := Subst(t[1..], n, pr);
      if t[0] == n {
        assert Subst(t, n, pr)[1..] == [pr.right] + rest && ([pr.right] + rest)[1..] == rest;
      } else {
        assert Subst(t, n, pr)[1..] == rest;
      }
    }
  }

  /** A terminal that occurs at most once at the beginning does so after every round. */
  lemma {:induction false} OnceForever(trace: seq<seq<int>>, rules: seq<Pair>, first: int, s: int, k: int)
    requires Run(trace, rules, first) && s < first && 0 <= k < |trace| && Times(trace[0], s) <= 1
    ensures Times(trace[k], s) <= 1
  {
    if k > 0 {
      OnceForever(trace, rules, first, s, k - 1);
      assert Greedy(trace[k - 1], rules[k - 1], first + k - 1, trace[k]);
      SubstTimes(trace[k], first + k - 1, rules[k - 1], s);
    }
  }

  /** A terminal that occurs at most once never enters a rule. */
  lemma OnceNoRule(trace: seq<seq<int>>, rules: seq<Pair>, first: int, s: int, k: int)
    requires Run(trace, rules, first) && s < first && 0 <= k < |rules| && Times(trace[0], s) <= 1
    ensures rules[k].left != s && rules[k].right != s
  {
    OnceForever(trace, rules, first, s, k);
    assert Greedy(trace[k], rules[k], first + k, trace[k + 1]);
    CountTimes(trace[k], rules[k]);
  }

  // ---------- every rule is used ----------

  /** Rule `k` is referred to by a later rule, below number `j`. */
  ghost predicate UsedBelow(rules: seq<Pair>, s: int, k: int, j: int) {
    exists l :: k < l < j && 0 <= l < |rules| && (rules[l].left == s || rules[l].right == s)
  }

  lemma {:induction false} SubstSource(t: seq<int>, n: int, pr: Pair, x: int)
    requires x in Subst(t, n, pr)
    ensures x in t || x == pr.left || x == pr.right
  {
    if t != [] {
      if x in Subst(t[1..], n, pr) {
        SubstSource(t[1..], n, pr, x);
      }
    }
  }

  /** The symbol of a rule stays in the text until a later rule takes it up. */
  lemma {:induction false} SymbolStays(trace: seq<seq<int>>, rules: seq<Pair>, first: int, k: int, j: int)
    requires Run(trace, rules, first) && 0 <= k < j <= |rules|
    ensures first + k in trace[j] || UsedBelow(rules, first + k, k, j)
  {
    var s := first + k;
    assert Greedy(trace[j - 1], rules[j - 1], first + j - 1, trace[j]);
    if j == k + 1 {
      RoundShrinks(trace[k], rules[k], s, trace[j]);
      if s !in trace[j] {
        SubstKeeps(trace[j], s, rules[k]);
      }
    } else {
      SymbolStays(trace, rules, first, k, j - 1);
      if s in trace[j - 1] {
        SubstSource(trace[j], first + j - 1, rules[j - 1], s);
        if s !in trace[j] {
          assert k < j - 1 < j && (rules[j - 1].left == s || rules[j - 1].right == s);
        }
      } else {
        var l :| k < l < j - 1 && 0 <= l < |rules| && (rules[l].left == s || rules[l].right == s);
        assert k < l < j;
      }
    }
  }

  // ---------- rows ----------

  /** Cuts `t` behind each symbol in `lo..hi`, which are dropped; the last row is what follows the last of them. */
  ghost function Split(t: seq<int>, lo: int, hi: int): (rows: seq<seq<int>>)
    ensures |rows| >= 1
  {
    if t == [] then [[]] else
      var rows := Split(t[..|t| - 1], lo, hi);
      Followed(rows, t[|t| - 1], lo, hi)
  }

  /** The rows once the symbol `x` has followed. */
  ghost function Followed(rows: seq<seq<int>>, x: int, lo: int, hi: int): (rows': seq<seq<int>>)
    requires |rows| >= 1
    ensures |rows'| >= 1
  {
    if lo <= x < hi then rows + [[]] else Widened(rows, [x])
  }

  ghost predicate Uncut(t: seq<int>, lo: int, hi: int) {
    forall i :: 0 <= i < |t| ==> !(lo <= t[i] < hi)
  }

  lemma {:induction false} SplitUncut(a: seq<int>, b: seq<int>, lo: int, hi: int)
    requires Uncut(b, lo, hi)
    ensures Split(a + b, lo, hi) == Widened(Split(a, lo, hi), b)
    decreases |b|
  {
    var rows := Split(a, lo, hi);
    if b == [] {
      assert a + b == a && rows[|rows| - 1] + b == rows[|rows| - 1];
    } else {
      var k := |b| - 1;
      SplitUncut(a, b[..k], lo, hi);
      assert (a + b)[..|a + b| - 1] == a + b[..k];
      assert rows[|rows| - 1] + b[..k] + [b[k]] == rows[|rows| - 1] + b;
    }
  }

  /** Rules that mention no cut symbol yield none. */
  lemma {:induction false} YieldUncut(rules: seq<Pair>, first: int, lo: int, hi: int, s: int)
    requires Grounded(rules, first) && hi <= first && !(lo <= s < hi)
    requires forall i :: 0 <= i < |rules| ==> !(lo <= rules[i].left < hi) && !(lo <= rules[i].right < hi)
    ensures Uncut(Yield(rules, first, s), lo, hi)
    decreases s
  {
    if first <= s < first + |rules| {
      YieldUncut(rules, first, lo, hi, rules[s - first].left);
      YieldUncut(rules, first, lo, hi, rules[s - first].right);
    }
  }

  ghost function ExpandRows(rules: seq<Pair>, first: int, rows: seq<seq<int>>): (r: seq<seq<int>>)
    requires Grounded(rules, first)
    ensures |r| == |rows| && forall i :: 0 <= i < |rows| ==> r[i] == Expand(rules, first, rows[i])
  {
    seq(|rows|, i requires 0 <= i < |rows| => Expand(rules, first, rows[i]))
  }

  /** Cutting a text into rows and writing the rules out can be done in either order. */
  lemma {:induction false} SplitExpand(rules: seq<Pair>, first: int, lo: int, hi: int, t: seq<int>)
    requires Grounded(rules, first) && hi <= first
    requires forall i :: 0 <= i < |rules| ==> !(lo <= rules[i].left < hi) && !(lo <= rules[i].right < hi)
    ensures Split(Expand(rules, first, t), lo, hi) == ExpandRows(rules, first, Split(t, lo, hi))
  {
    if t == [] {
      assert ExpandRows(rules, first, [[]]) == [[]];
    } else {
      var k := |t| - 1;
      SplitExpand(rules, first, lo, hi, t[..k]);
      ExpandConcat(rules, first, t[..k], [t[k]]);
      assert t == t[..k] + [t[k]];
      ExpandLast(rules, first, lo, hi, t[..k], t[k]);
    }
  }

  lemma ExpandLast(rules: seq<Pair>, first: int, lo: int, hi: int, a: seq<int>, x: int)
    requires Grounded(rules, first) && hi <= first
    requires forall i :: 0 <= i < |rules| ==> !(lo <= rules[i].left < hi) && !(lo <= rules[i].right < hi)
    requires Split(Expand(rules, first, a), lo, hi) == ExpandRows(rules, first, Split(a, lo, hi))
    ensures Split(Expand(rules, first, a) + Expand(rules, first, [x]), lo, hi) ==
              ExpandRows(rules, first, Followed(Split(a, lo, hi), x, lo, hi))
  {
    var e, y := Expand(rules, first, a), Yield(rules, first, x);
    var rows := Split(a, lo, hi);
    assert lo <= x < hi ==> y == [x];
    hide Yield, Grounded, Expand;
    ExpandOne(rules, first, x);
    if lo <= x < hi {
      assert (e + y)[..|e + y| - 1] == e;
      assert ExpandRows(rules, first, rows + [[]]) == ExpandRows(rules, first, rows) + [[]];
    } else {
      YieldUncut(rules, first, lo, hi, x);
      SplitUncut(e, y, lo, hi);
      ExpandConcat(rules, first, rows[|rows| - 1], [x]);
      assert ExpandRows(rules, first, Widened(rows, [x])) == Widened(ExpandRows(rules, first, rows), y);
    }
  }
}
