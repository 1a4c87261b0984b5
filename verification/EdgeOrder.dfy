/**
 The order of the edges of a compressed graph: an edge out of a vertex comes first, and an edge out of a rule comes in
 the step after the last edge into that rule.
 */
module EdgeOrder {
  import opened LevelOrder
  import Cards

  /** The edge list: the nodes below `V` are vertices, the `R` nodes from there on rules. */
  ghost predicate Net(src: seq<int>, dst: seq<int>, V: int, R: int) {
    && 0 <= V && 0 <= R && |src| == |dst|
    && forall j :: 0 <= j < |src| ==> 0 <= src[j] < V + R && 0 <= dst[j] < V + R
  }

  /** Edges out of rules, each of which leads to the rule that the next one comes from. */
  ghost predicate Chain(src: seq<int>, dst: seq<int>, V: int, c: seq<int>) {
    && |src| == |dst| && (forall i :: 0 <= i < |c| ==> 0 <= c[i] < |src| && src[c[i]] >= V)
    && forall i :: 0 <= i < |c| - 1 ==> dst[c[i]] == src[c[i + 1]]
  }

  /** No chain is so long that the order of its last edge would reach the sentinel; so there is no circle either. */
  ghost predicate Shallow(src: seq<int>, dst: seq<int>, V: int) {
    forall c :: Chain(src, dst, V, c) ==> |c| < INIT
  }

  /** `rank` bounds the chains that begin at a node. */
  ghost predicate Acyclic(src: seq<int>, dst: seq<int>, V: int, R: int, rank: seq<nat>) {
    && Net(src, dst, V, R) && |rank| == V + R && (forall x :: 0 <= x < |rank| ==> rank[x] < INIT)
    && forall j :: 0 <= j < |src| && src[j] >= V ==> 1 <= rank[src[j]] && (dst[j] >= V ==> rank[dst[j]] < rank[src[j]])
  }

  lemma {:induction false} RankBounds(src: seq<int>, dst: seq<int>, V: int, R: int, rank: seq<nat>, c: seq<int>)
    requires Acyclic(src, dst, V, R, rank) && Chain(src, dst, V, c) && c != []
    ensures |c| <= rank[src[c[0]]]
  {
    if |c| > 1 {
      var rest := c[1..];
      assert forall i :: 0 <= i < |rest| ==> rest[i] == c[i + 1];
      RankBounds(src, dst, V, R, rank, rest);
      assert dst[c[0]] == src[c[1]];
    }
  }

  /** Some chain of `n` edges begins at `x`. */
  ghost predicate From(src: seq<int>, dst: seq<int>, V: int, x: int, n: int) {
    exists c :: Chain(src, dst, V, c) && |c| == n && (n > 0 ==> src[c[0]] == x)
  }

  /** The length of the longest chain that begins at `x` and stays clear of the sentinel. */
  ghost function Longest(src: seq<int>, dst: seq<int>, V: int, x: int): (k: nat)
    requires |src| == |dst|
    ensures k < INIT && From(src, dst, V, x, k) && forall m :: 0 <= m < INIT && From(src, dst, V, x, m) ==> m <= k
  {
    assert Chain(src, dst, V, []);
    var P := (m: int) => From(src, dst, V, x, m);
    assert forall m :: From(src, dst, V, x, m) <==> P(m);
    Cards.Greatest(P, INIT - 1)
  }

  /** When chains stay short, their lengths are ranks. */
  lemma RankOf(src: seq<int>, dst: seq<int>, V: int, R: int) returns (rank: seq<nat>)
    requires Net(src, dst, V, R) && Shallow(src, dst, V)
    ensures Acyclic(src, dst, V, R, rank)
  {
    rank := seq(V + R, x => Longest(src, dst, V, x));
    forall j | 0 <= j < |src| && src[j] >= V
      ensures 1 <= rank[src[j]] && (dst[j] >= V ==> rank[dst[j]] < rank[src[j]])
    {
      assert Chain(src, dst, V, [j]);
      assert From(src, dst, V, src[j], 1);
      if dst[j] >= V {
        var k := rank[dst[j]];
        assert From(src, dst, V, dst[j], k);
        var c :| Chain(src, dst, V, c) && |c| == k && (k > 0 ==> src[c[0]] == dst[j]);
        assert Chain(src, dst, V, [j] + c);
        assert From(src, dst, V, src[j], k + 1);
      }
    }
  }

  /** The order edge `j` should have: 0 out of a vertex, one more than the greatest order of an edge into a rule. */
  ghost predicate Placed(src: seq<int>, dst: seq<int>, V: int, order: seq<int>, j: int)
    requires |src| == |dst| == |order| && 0 <= j < |src|
  {
    if src[j] < V then order[j] == 0 else
      && 1 <= order[j]
      && (forall e :: 0 <= e < |dst| && dst[e] == src[j] ==> order[e] < order[j])
      && (order[j] > 1 ==> exists e :: 0 <= e < |dst| && dst[e] == src[j] && order[e] == order[j] - 1)
  }

  ghost predicate AllPlaced(src: seq<int>, dst: seq<int>, V: int, order: seq<int>) {
    |src| == |dst| == |order| && forall j :: 0 <= j < |src| ==> Placed(src, dst, V, order, j)
  }

  /** There is only one such order. */
  lemma {:induction false} OneOrder(src: seq<int>, dst: seq<int>, V: int, R: int, rank: seq<nat>, a: seq<int>,
                                    b: seq<int>, j: int)
    requires Acyclic(src, dst, V, R, rank) && AllPlaced(src, dst, V, a) && AllPlaced(src, dst, V, b) && 0 <= j < |src|
    ensures a[j] == b[j]
    decreases if src[j] < V then 0 else INIT - rank[src[j]]
  {
    assert Placed(src, dst, V, a, j) && Placed(src, dst, V, b, j);
    if src[j] >= V {
      forall e | 0 <= e < |dst| && dst[e] == src[j] ensures a[e] == b[e] {
        OneOrder(src, dst, V, R, rank, a, b, e);
      }
    }
  }

  lemma SameOrder(src: seq<int>, dst: seq<int>, V: int, R: int, a: seq<int>, b: seq<int>)
    requires Net(src, dst, V, R) && Shallow(src, dst, V) && AllPlaced(src, dst, V, a) && AllPlaced(src, dst, V, b)
    ensures a == b
  {
    hide Shallow, AllPlaced;
    var rank := RankOf(src, dst, V, R);
    assert |a| == |src| == |b| by { PlacedSizes(src, dst, V, a); PlacedSizes(src, dst, V, b); }
    forall j | 0 <= j < |src| ensures a[j] == b[j] {
      OneOrder(src, dst, V, R, rank, a, b, j);
    }
  }

  lemma PlacedSizes(src: seq<int>, dst: seq<int>, V: int, order: seq<int>)
    requires AllPlaced(src, dst, V, order)
    ensures |src| == |dst| == |order|
  {
  }

  // ---------- counting edges without an order ----------

  ghost function Into(dst: seq<int>, order: seq<int>, x: int, n: int): (k: nat)
    requires 0 <= n <= |dst| == |order|
  {
    if n == 0 then 0 else Into(dst, order, x, n - 1) + if dst[n - 1] == x && order[n - 1] == INIT then 1 else 0
  }

  ghost function Left(order: seq<int>, n: int): (k: nat)
    requires 0 <= n <= |order|
    ensures k <= n
  {
    if n == 0 then 0 else Left(order, n - 1) + if order[n - 1] == INIT then 1 else 0
  }

  lemma {:induction false} LeftUpdate(order: seq<int>, i: int, step: int, n: int)
    requires 0 <= n <= |order| && 0 <= i < |order| && order[i] == INIT != step
    ensures Left(order[i := step], n) == Left(order, n) - if i < n then 1 else 0
  {
    if n > 0 {
      LeftUpdate(order, i, step, n - 1);
    }
  }

  lemma {:induction false} IntoUpdate(dst: seq<int>, order: seq<int>, i: int, step: int, x: int, n: int)
    requires 0 <= n <= |dst| == |order| && 0 <= i < |order| && order[i] == INIT != step
    ensures Into(dst, order[i := step], x, n) == Into(dst, order, x, n) - if i < n && dst[i] == x then 1 else 0
  {
    if n > 0 {
      IntoUpdate(dst, order, i, step, x, n - 1);
    }
  }

  lemma {:induction false} IntoSome(dst: seq<int>, order: seq<int>, x: int, n: int)
    requires 0 <= n <= |dst| == |order|
    ensures Into(dst, order, x, n) > 0 <==> exists j :: 0 <= j < n && dst[j] == x && order[j] == INIT
  {
    if n > 0 {
      IntoSome(dst, order, x, n - 1);
    }
  }

  lemma {:induction false} LeftSome(order: seq<int>, n: int)
    requires 0 <= n <= |order|
    ensures Left(order, n) > 0 <==> exists j :: 0 <= j < n && order[j] == INIT
  {
    if n > 0 {
      LeftSome(order, n - 1);
    }
  }

  /** `degree` holds, for every rule, how many edges into it have no order yet. */
  ghost predicate Waits(dst: seq<int>, V: int, order: seq<int>, degree: seq<int>) {
    |dst| == |order| && forall r :: 0 <= r < |degree| ==> degree[r] == Into(dst, order, V + r, |dst|)
  }

  // ---------- between two steps ----------

  /** The orders given before `step` are right, and the edges that come next come next for a reason. */
  ghost predicate Sound(src: seq<int>, dst: seq<int>, V: int, R: int, rank: seq<nat>, order: seq<int>,
                        degree: seq<int>, step: int) {
    && Acyclic(src, dst, V, R, rank) && |order| == |src| && |degree| == R && 1 <= step && Waits(dst, V, order, degree)
    && (forall j :: 0 <= j < |src| && order[j] != INIT ==>
          && Placed(src, dst, V, order, j) && order[j] < step
          && (src[j] >= V ==> order[j] + rank[src[j]] <= INIT && degree[src[j] - V] == 0))
    && (forall j :: 0 <= j < |src| && order[j] == INIT ==> src[j] >= V)
    && (forall j :: 0 <= j < |src| && order[j] == INIT && degree[src[j] - V] == 0 ==> Due(src, dst, order, j, step))
    && (step == 1 || exists j :: 0 <= j < |src| && order[j] == step - 1)
  }

  /** An edge is due at `step` when another one into its rule came in the step before, or in the first step. */
  ghost predicate Due(src: seq<int>, dst: seq<int>, order: seq<int>, j: int, step: int)
    requires |src| == |dst| == |order| && 0 <= j < |src|
  {
    step == 1 || exists e :: 0 <= e < |dst| && dst[e] == src[j] && order[e] == step - 1
  }

  ghost predicate Ready(src: seq<int>, V: int, order: seq<int>, degree: seq<int>, j: int)
    requires 0 <= j < |src| == |order|
  {
    V <= src[j] < V + |degree| && degree[src[j] - V] == 0 && order[j] == INIT
  }

  /** While an edge is left, one is ready: climb from it to a rule that nothing waits for. */
  lemma {:induction false} SomeReady(src: seq<int>, dst: seq<int>, V: int, R: int, rank: seq<nat>, order: seq<int>,
                                     degree: seq<int>, step: int, j: int)
    returns (e: int)
    requires Sound(src, dst, V, R, rank, order, degree, step) && 0 <= j < |src| && order[j] == INIT
    ensures 0 <= e < |src| && Ready(src, V, order, degree, e)
    decreases INIT - rank[src[j]]
  {
    if degree[src[j] - V] == 0 {
      e := j;
    } else {
      IntoSome(dst, order, src[j], |dst|);
      assert V + (src[j] - V) == src[j];
      var i :| 0 <= i < |dst| && dst[i] == src[j] && order[i] == INIT;
      e := SomeReady(src, dst, V, R, rank, order, degree, step, i);
    }
  }

  /** The order after a step: every ready edge gets the number of the step. */
  ghost predicate Stepped(src: seq<int>, V: int, order: seq<int>, degree: seq<int>, step: int, next: seq<int>, n: int) {
    && 0 <= n <= |src| == |order| == |next|
    && forall j :: 0 <= j < |src| ==> next[j] == if j < n && Ready(src, V, order, degree, j) then step else order[j]
  }

  lemma NothingWaits(dst: seq<int>, V: int, order: seq<int>, degree: seq<int>, x: int)
    requires Waits(dst, V, order, degree) && V <= x < V + |degree|
    ensures degree[x - V] >= 0
    ensures degree[x - V] == 0 <==> forall e :: 0 <= e < |dst| && dst[e] == x ==> order[e] != INIT
  {
    IntoSome(dst, order, x, |dst|);
    assert V + (x - V) == x;
  }

  /** An edge that becomes due at `step` keeps its order below the sentinel. */
  lemma BelowSentinel(src: seq<int>, dst: seq<int>, V: int, R: int, rank: seq<nat>, order: seq<int>,
                      degree: seq<int>, step: int, j: int)
    requires Sound(src, dst, V, R, rank, order, degree, step) && 0 <= j < |src| && Ready(src, V, order, degree, j)
    ensures step + rank[src[j]] <= INIT && step < INIT
  {
    assert Due(src, dst, order, j, step);
    if step > 1 {
      var e :| 0 <= e < |dst| && dst[e] == src[j] && order[e] == step - 1;
      NothingWaits(dst, V, order, degree, src[j]);
      assert Placed(src, dst, V, order, e);
    }
  }

  lemma StepPlaces(src: seq<int>, dst: seq<int>, V: int, R: int, rank: seq<nat>, order: seq<int>, degree: seq<int>,
                   step: int, next: seq<int>, j: int)
    requires Sound(src, dst, V, R, rank, order, degree, step) && Stepped(src, V, order, degree, step, next, |src|)
    requires 0 <= j < |src| && next[j] != INIT
    ensures Placed(src, dst, V, next, j) && next[j] < step + 1
    ensures src[j] >= V ==> next[j] + rank[src[j]] <= INIT && degree[src[j] - V] == 0
  {
    if src[j] >= V {
      NothingWaits(dst, V, order, degree, src[j]);
      if Ready(src, V, order, degree, j) {
        BelowSentinel(src, dst, V, R, rank, order, degree, step, j);
        assert Due(src, dst, order, j, step);
        if step > 1 {
          var e :| 0 <= e < |dst| && dst[e] == src[j] && order[e] == step - 1;
          assert next[e] == step - 1;
        }
      } else {
        assert Placed(src, dst, V, order, j);
        if order[j] > 1 {
          var e :| 0 <= e < |dst| && dst[e] == src[j] && order[e] == order[j] - 1;
          assert next[e] == next[j] - 1;
        }
      }
    }
  }

  lemma StepDue(src: seq<int>, dst: seq<int>, V: int, R: int, rank: seq<nat>, order: seq<int>, degree: seq<int>,
                step: int, next: seq<int>, degree': seq<int>, j: int)
    requires Sound(src, dst, V, R, rank, order, degree, step) && Stepped(src, V, order, degree, step, next, |src|)
    requires |degree'| == R && Waits(dst, V, next, degree') && 0 <= j < |src| && next[j] == INIT && step != INIT
    ensures src[j] >= V && (degree'[src[j] - V] == 0 ==> Due(src, dst, next, j, step + 1))
  {
    assert order[j] == INIT;
    NothingWaits(dst, V, order, degree, src[j]);
    NothingWaits(dst, V, next, degree', src[j]);
    if degree'[src[j] - V] == 0 {
      var e :| 0 <= e < |dst| && dst[e] == src[j] && order[e] == INIT;
      assert next[e] == step;
    }
  }

  /** What a step keeps. */
  lemma StepSound(src: seq<int>, dst: seq<int>, V: int, R: int, rank: seq<nat>, order: seq<int>, degree: seq<int>,
                  step: int, next: seq<int>, degree': seq<int>, e: int)
    requires Sound(src, dst, V, R, rank, order, degree, step) && Stepped(src, V, order, degree, step, next, |src|)
    requires |degree'| == R && Waits(dst, V, next, degree') && 0 <= e < |src| && Ready(src, V, order, degree, e)
    ensures Sound(src, dst, V, R, rank, next, degree', step + 1)
  {
    BelowSentinel(src, dst, V, R, rank, order, degree, step, e);
    assert next[e] == step;
    forall j | 0 <= j < |src| && next[j] != INIT
      ensures Placed(src, dst, V, next, j) && next[j] < step + 1
      ensures (src[j] >= V ==> next[j] + rank[src[j]] <= INIT && degree'[src[j] - V] == 0)
    {
      StepPlaces(src, dst, V, R, rank, order, degree, step, next, j);
      if src[j] >= V {
        NothingWaits(dst, V, order, degree, src[j]);
        NothingWaits(dst, V, next, degree', src[j]);
      }
    }
    hide Placed, Due, Waits, Acyclic;
    forall j | 0 <= j < |src| && next[j] == INIT
      ensures src[j] >= V && (degree'[src[j] - V] == 0 ==> Due(src, dst, next, j, step + 1))
    {
      StepDue(src, dst, V, R, rank, order, degree, step, next, degree', j);
    }
  }

  // ---------- what the loop computes, whether or not it ends ----------

  ghost function First(src: seq<int>, V: int): (order: seq<int>)
    ensures |order| == |src| && forall j :: 0 <= j < |src| ==> order[j] == if src[j] < V then 0 else INIT
  {
    seq(|src|, j requires 0 <= j < |src| => if src[j] < V then 0 else INIT)
  }

  ghost predicate Free(src: seq<int>, dst: seq<int>, V: int, order: seq<int>, j: int)
    requires |src| == |dst| == |order| && 0 <= j < |src|
  {
    src[j] >= V && order[j] == INIT && Into(dst, order, src[j], |dst|) == 0
  }

  ghost function Next(src: seq<int>, dst: seq<int>, V: int, order: seq<int>, step: int): (next: seq<int>)
    requires |src| == |dst| == |order|
    ensures |next| == |src|
    ensures forall j :: 0 <= j < |src| ==> next[j] == if Free(src, dst, V, order, j) then step else order[j]
  {
    seq(|src|, j requires 0 <= j < |src| => if Free(src, dst, V, order, j) then step else order[j])
  }

  /** The orders after `k` passes. */
  ghost function After(src: seq<int>, dst: seq<int>, V: int, k: nat): (order: seq<int>)
    requires |src| == |dst|
    ensures |order| == |src|
  {
    if k == 0 then First(src, V) else Next(src, dst, V, After(src, dst, V, k - 1), k)
  }

  /** The loop ends before the sentinel is reached: after some pass every edge has an order. */
  ghost predicate Ends(src: seq<int>, dst: seq<int>, V: int)
    requires |src| == |dst|
  {
    exists k: nat :: k < INIT && Left(After(src, dst, V, k), |src|) == 0
  }

  lemma SteppedIsNext(src: seq<int>, dst: seq<int>, V: int, R: int, order: seq<int>, degree: seq<int>, step: int,
                      next: seq<int>)
    requires Net(src, dst, V, R) && |order| == |src| && |degree| == R && Waits(dst, V, order, degree)
    ensures Stepped(src, V, order, degree, step, next, |src|) <==> next == Next(src, dst, V, order, step)
  {
    forall j | 0 <= j < |src| ensures Ready(src, V, order, degree, j) <==> Free(src, dst, V, order, j) {
      if src[j] >= V {
        assert V + (src[j] - V) == src[j];
      }
    }
  }

  /** How many edges wait for every rule. */
  ghost function Degrees(dst: seq<int>, V: int, R: nat, order: seq<int>): (degree: seq<int>)
    requires |dst| == |order|
    ensures |degree| == R && Waits(dst, V, order, degree)
  {
    seq(R, r => Into(dst, order, V + r, |dst|))
  }

  lemma AfterNone(src: seq<int>, dst: seq<int>, V: int)
    requires |src| == |dst|
    ensures After(src, dst, V, 0) == First(src, V)
  {
  }

  lemma AfterNext(src: seq<int>, dst: seq<int>, V: int, k: nat)
    requires |src| == |dst| && k > 0
    ensures After(src, dst, V, k) == Next(src, dst, V, After(src, dst, V, k - 1), k)
  {
  }

  lemma SoundNext(src: seq<int>, dst: seq<int>, V: int, R: nat, rank: seq<nat>, order: seq<int>, step: int)
    requires |src| == |dst| == |order| && Left(order, |src|) > 0
    requires Sound(src, dst, V, R, rank, order, Degrees(dst, V, R, order), step)
    ensures var next := Next(src, dst, V, order, step);
            Sound(src, dst, V, R, rank, next, Degrees(dst, V, R, next), step + 1)
  {
    var degree, next := Degrees(dst, V, R, order), Next(src, dst, V, order, step);
    SoundSizes(src, dst, V, R, rank, order, degree, step);
    hide Sound, Acyclic, Next, Degrees, Net, Waits;
    var e := OneIsReady(src, dst, V, R, rank, order, degree, step);
    SteppedIsNext(src, dst, V, R, order, degree, step, next);
    StepSound(src, dst, V, R, rank, order, degree, step, next, Degrees(dst, V, R, next), e);
  }

  /** After some pass up to `k` every edge has an order. */
  ghost predicate EndsBy(src: seq<int>, dst: seq<int>, V: int, k: nat)
    requires |src| == |dst|
  {
    exists i: nat :: i <= k && Left(After(src, dst, V, i), |src|) == 0
  }

  lemma EndsByMore(src: seq<int>, dst: seq<int>, V: int, k: nat)
    requires |src| == |dst| && k > 0
    ensures EndsBy(src, dst, V, k - 1) || Left(After(src, dst, V, k - 1), |src|) == 0 ==> EndsBy(src, dst, V, k)
  {
    hide After, Left;
    if EndsBy(src, dst, V, k - 1) {
      var i: nat :| i <= k - 1 && Left(After(src, dst, V, i), |src|) == 0;
      assert i <= k;
    }
  }

  /** Up to pass `k` either the loop has ended or all is as it should be. */
  lemma {:induction false} SoundAfter(src: seq<int>, dst: seq<int>, V: int, R: nat, rank: seq<nat>, k: nat)
    requires Acyclic(src, dst, V, R, rank) && |src| == |dst|
    ensures var order := After(src, dst, V, k);
            EndsBy(src, dst, V, k) || Sound(src, dst, V, R, rank, order, Degrees(dst, V, R, order), k + 1)
  {
    if k == 0 {
      FirstSound(src, dst, V, R, rank, Degrees(dst, V, R, First(src, V)));
    } else {
      AfterNext(src, dst, V, k);
      hide Sound, Acyclic, After, Next, Degrees, EndsBy, Left;
      var past := After(src, dst, V, k - 1);
      SoundAfter(src, dst, V, R, rank, k - 1);
      EndsByMore(src, dst, V, k);
      if !EndsBy(src, dst, V, k) {
        SoundNext(src, dst, V, R, rank, past, k);
      }
    }
  }

  lemma FirstSound(src: seq<int>, dst: seq<int>, V: int, R: int, rank: seq<nat>, degree: seq<int>)
    requires Acyclic(src, dst, V, R, rank) && |degree| == R && Waits(dst, V, First(src, V), degree)
    ensures Sound(src, dst, V, R, rank, First(src, V), degree, 1)
  {
  }

  /** An edge that has an order comes after all edges into its rule. */
  ghost predicate Later(src: seq<int>, dst: seq<int>, V: int, order: seq<int>, k: int) {
    && |src| == |dst| == |order|
    && forall j :: 0 <= j < |src| && order[j] != INIT ==>
         && 0 <= order[j] <= k
         && (src[j] >= V ==> 1 <= order[j] && forall e :: 0 <= e < |dst| && dst[e] == src[j] ==> order[e] < order[j])
  }

  lemma {:induction false} LaterAfter(src: seq<int>, dst: seq<int>, V: int, k: nat)
    requires |src| == |dst| && k < INIT
    ensures Later(src, dst, V, After(src, dst, V, k), k)
  {
    if k > 0 {
      LaterAfter(src, dst, V, k - 1);
      var past, order := After(src, dst, V, k - 1), After(src, dst, V, k);
      assert order == Next(src, dst, V, past, k);
      forall j | 0 <= j < |src| && order[j] != INIT
        ensures 0 <= order[j] <= k
        ensures src[j] >= V ==> 1 <= order[j] && forall e :: 0 <= e < |dst| && dst[e] == src[j] ==> order[e] < order[j]
      {
        IntoSome(dst, past, src[j], |dst|);
      }
    }
  }

  /** Along a chain of edges that all have an order, the orders count up. */
  lemma {:induction false} ChainCounts(src: seq<int>, dst: seq<int>, V: int, order: seq<int>, k: int, c: seq<int>,
                                       i: nat)
    requires Later(src, dst, V, order, k) && Chain(src, dst, V, c) && i < |c|
    requires forall j :: 0 <= j < |order| ==> order[j] != INIT
    ensures i + 1 <= order[c[i]] <= k
  {
    if i > 0 {
      ChainCounts(src, dst, V, order, k, c, i - 1);
      assert dst[c[i - 1]] == src[c[i]];
    }
  }

  /** The loop ends before the sentinel exactly when no chain of edges out of rules is as long as the sentinel. */
  lemma LoopEnds(src: seq<int>, dst: seq<int>, V: int, R: nat)
    requires Net(src, dst, V, R)
    ensures Ends(src, dst, V) <==> Shallow(src, dst, V)
  {
    if Ends(src, dst, V) {
      var k: nat :| k < INIT && Left(After(src, dst, V, k), |src|) == 0;
      var order := After(src, dst, V, k);
      LaterAfter(src, dst, V, k);
      LeftSome(order, |src|);
      forall c | Chain(src, dst, V, c) ensures |c| < INIT {
        if c != [] {
          ChainCounts(src, dst, V, order, k, c, |c| - 1);
        }
      }
    }
    if Shallow(src, dst, V) {
      var rank := RankOf(src, dst, V, R);
      hide Sound, After, Acyclic;
      SoundAfter(src, dst, V, R, rank, INIT - 1);
      var order := After(src, dst, V, INIT - 1);
      if EndsBy(src, dst, V, INIT - 1) {
        var i: nat :| i <= INIT - 1 && Left(After(src, dst, V, i), |src|) == 0;
        assert i < INIT;
      } else if Left(order, |src|) > 0 {
        var e := OneIsReady(src, dst, V, R, rank, order, Degrees(dst, V, R, order), INIT);
        assert false;
      }
    }
  }

  /** A circle of edges out of rules. */
  ghost predicate Circle(src: seq<int>, dst: seq<int>, V: int, c: seq<int>) {
    c != [] && Chain(src, dst, V, c) && dst[c[|c| - 1]] == src[c[0]]
  }

  /** The edges of a circle wait for each other, so before the sentinel is reached none of them gets an order. */
  lemma {:induction false} CircleWaits(src: seq<int>, dst: seq<int>, V: int, c: seq<int>, k: nat)
    requires Circle(src, dst, V, c) && k < INIT
    ensures forall i :: 0 <= i < |c| ==> After(src, dst, V, k)[c[i]] == INIT
    ensures Left(After(src, dst, V, k), |src|) > 0
  {
    var order := After(src, dst, V, k);
    if k > 0 {
      CircleWaits(src, dst, V, c, k - 1);
      var past := After(src, dst, V, k - 1);
      forall i | 0 <= i < |c| ensures order[c[i]] == INIT {
        var h := if i == 0 then c[|c| - 1] else c[i - 1];
        assert dst[h] == src[c[i]] && past[h] == INIT;
        IntoSome(dst, past, src[c[i]], |dst|);
      }
    }
    LeftSome(order, |src|);
    assert order[c[0]] == INIT;
  }

  // ---------- the loops ----------

  /** Counts the edges into every rule. */
  method CountInto(dst: seq<int>, V: int, R: int, ghost order: seq<int>) returns (degree: seq<int>)
    requires 0 <= V && 0 <= R && (forall j :: 0 <= j < |dst| ==> 0 <= dst[j] < V + R)
    requires |order| == |dst| && forall j :: 0 <= j < |order| ==> order[j] == INIT
    ensures |degree| == R && Waits(dst, V, order, degree)
  {
    degree := seq(R, _ => 0);
    var i := 0;
    while i < |dst|
      invariant 0 <= i <= |dst| && |degree| == R
      invariant forall r :: 0 <= r < R ==> degree[r] == Into(dst, order, V + r, i)
    {
      if dst[i] >= V {
        degree := degree[dst[i] - V := degree[dst[i] - V] + 1];
      }
      i := i + 1;
    }
  }

  /** Gives the edges out of vertices their order. */
  method FirstEdges(src: seq<int>, dst: seq<int>, V: int, R: int)
    returns (order: seq<int>, degree: seq<int>, processed: int)
    requires Net(src, dst, V, R)
    ensures order == First(src, V) && |degree| == R && Waits(dst, V, order, degree)
    ensures processed == |src| - Left(order, |src|)
  {
    order := seq(|src|, _ => INIT);
    degree := CountInto(dst, V, R, order);
    processed := 0;
    AllLeft(order, |order|);
    var i := 0;
    while i < |src|
      invariant 0 <= i <= |src| == |order| && |degree| == R && Waits(dst, V, order, degree)
      invariant processed == |src| - Left(order, |src|)
      invariant forall j :: 0 <= j < |src| ==> order[j] == if j < i && src[j] < V then 0 else INIT
    {
      if src[i] < V {
        LeftUpdate(order, i, 0, |src|);
        var x := dst[i];
        TakeOne(dst, V, order, degree, i, 0);
        order := order[i := 0];
        processed := processed + 1;
        if x >= V {
          degree := degree[x - V := degree[x - V] - 1];
        }
      }
      i := i + 1;
    }
  }

  lemma {:induction false} AllLeft(order: seq<int>, n: int)
    requires 0 <= n <= |order| && forall j :: 0 <= j < |order| ==> order[j] == INIT
    ensures Left(order, n) == n
  {
    if n > 0 {
      AllLeft(order, n - 1);
    }
  }

  /** With the order of edge `i` given, one edge less waits for its target. */
  lemma TakeOne(dst: seq<int>, V: int, order: seq<int>, degree: seq<int>, i: int, step: int)
    requires Waits(dst, V, order, degree) && 0 <= i < |dst| && order[i] == INIT != step && 0 <= dst[i] < V + |degree|
    ensures Waits(dst, V, order[i := step], if dst[i] < V then degree else degree[dst[i] - V := degree[dst[i] - V] - 1])
  {
    forall r | 0 <= r < |degree|
      ensures Into(dst, order[i := step], V + r, |dst|) == degree[r] - if dst[i] == V + r then 1 else 0
    {
      IntoUpdate(dst, order, i, step, V + r, |dst|);
    }
  }

  /** One pass over the edges: the ready ones get the number of the step, and are counted for their targets. */
  method Pass(src: seq<int>, dst: seq<int>, V: int, R: int, order0: seq<int>, degree: seq<int>, step: int,
              processed0: int)
    returns (order: seq<int>, freed: seq<int>, processed: int)
    requires Net(src, dst, V, R) && |order0| == |src| && |degree| == R && Waits(dst, V, order0, degree)
    requires processed0 == |src| - Left(order0, |src|) && step != INIT
    ensures order == Next(src, dst, V, order0, step) && processed == |src| - Left(order, |src|)
    ensures |freed| == R && forall r :: 0 <= r < R ==> freed[r] == degree[r] - Into(dst, order, V + r, |dst|)
  {
    order, freed, processed := order0, seq(R, _ => 0), processed0;
    var i := 0;
    while i < |src|
      invariant 0 <= i <= |src| && Stepped(src, V, order0, degree, step, order, i)
      invariant processed == |src| - Left(order, |src|)
      invariant |freed| == R && Freed(dst, V, degree, order, freed)
    {
      if src[i] >= V && degree[src[i] - V] == 0 && order[i] == INIT {
        LeftUpdate(order, i, step, |src|);
        FreeOne(dst, V, degree, order, freed, i, step);
        NothingWaitsFor(dst, V, order0, degree, i);
        order := order[i := step];
        processed := processed + 1;
        if dst[i] >= V && degree[dst[i] - V] > 0 {
          freed := freed[dst[i] - V := freed[dst[i] - V] + 1];
        }
      }
      i := i + 1;
    }
    SteppedIsNext(src, dst, V, R, order0, degree, step, order);
  }

  ghost predicate Freed(dst: seq<int>, V: int, degree: seq<int>, order: seq<int>, freed: seq<int>) {
    && |degree| == |freed| && |dst| == |order|
    && forall r :: 0 <= r < |freed| ==> freed[r] == degree[r] - Into(dst, order, V + r, |dst|)
  }

  lemma FreeOne(dst: seq<int>, V: int, degree: seq<int>, order: seq<int>, freed: seq<int>, i: int, step: int)
    requires Freed(dst, V, degree, order, freed) && 0 <= i < |dst| && order[i] == INIT != step
    requires 0 <= dst[i] < V + |degree|
    ensures Freed(dst, V, degree, order[i := step], if dst[i] < V then freed
                  else freed[dst[i] - V := freed[dst[i] - V] + 1])
  {
    var freed' := if dst[i] < V then freed else freed[dst[i] - V := freed[dst[i] - V] + 1];
    forall r | 0 <= r < |freed| ensures freed'[r] == degree[r] - Into(dst, order[i := step], V + r, |dst|) {
      IntoUpdate(dst, order, i, step, V + r, |dst|);
    }
  }

  lemma NothingWaitsFor(dst: seq<int>, V: int, order: seq<int>, degree: seq<int>, i: int)
    requires Waits(dst, V, order, degree) && 0 <= i < |dst| && order[i] == INIT && 0 <= dst[i] < V + |degree|
    ensures dst[i] >= V ==> degree[dst[i] - V] > 0
  {
    if dst[i] >= V {
      NothingWaits(dst, V, order, degree, dst[i]);
    }
  }

  method Subtract(degree: seq<int>, freed: seq<int>) returns (r: seq<int>)
    requires |degree| == |freed|
    ensures |r| == |degree| && forall i :: 0 <= i < |r| ==> r[i] == degree[i] - freed[i]
  {
    r := degree;
    for i := 0 to |degree|
      invariant |r| == |degree|
      invariant forall j :: 0 <= j < |r| ==> r[j] == if j < i then degree[j] - freed[j] else degree[j]
    {
      r := r[i := r[i] - freed[i]];
    }
  }

  /** One turn of the loop. */
  method Step(src: seq<int>, dst: seq<int>, V: int, R: int, ghost rank: seq<nat>, order: seq<int>, degree: seq<int>,
              step: int,
              processed: int)
    returns (order': seq<int>, degree': seq<int>, processed': int)
    requires Sound(src, dst, V, R, rank, order, degree, step) && |src| == |dst| == |order|
    requires processed == |src| - Left(order, |src|) < |src|
    ensures Sound(src, dst, V, R, rank, order', degree', step + 1) && order' == Next(src, dst, V, order, step)
    ensures processed' == |src| - Left(order', |src|) && Left(order', |src|) < Left(order, |src|)
  {
    hide Sound, Acyclic, Placed, Into, Waits, Next, Stepped, Ready;
    SoundSizes(src, dst, V, R, rank, order, degree, step);
    ghost var e := OneIsReady(src, dst, V, R, rank, order, degree, step);
    var freed;
    order', freed, processed' := Pass(src, dst, V, R, order, degree, step, processed);
    SteppedIsNext(src, dst, V, R, order, degree, step, order');
    StepShrinks(src, V, order, degree, step, order', e);
    degree' := Subtract(degree, freed);
    Counted(dst, V, order', degree, freed, degree');
    StepSound(src, dst, V, R, rank, order, degree, step, order', degree', e);
  }

  /**
   The order of every edge, and the number of steps.  Every edge out of a rule comes after all edges into that rule, in
   the first step that allows it.
   */
  method GenEdgeOrder(src: seq<int>, dst: seq<int>, V: int, R: int) returns (order: seq<int>, steps: int)
    requires Net(src, dst, V, R) && Shallow(src, dst, V)
    ensures AllPlaced(src, dst, V, order) && 1 <= steps && order == After(src, dst, V, steps - 1)
    ensures forall j :: 0 <= j < |src| ==> order[j] < steps && order[j] < INIT
    ensures steps == 1 || exists j :: 0 <= j < |src| && order[j] == steps - 1
  {
    hide Sound, Acyclic, Placed, Waits, After, Next, First, Shallow;
    ghost var rank := RankOf(src, dst, V, R);
    var degree, processed;
    order, degree, processed := FirstEdges(src, dst, V, R);
    FirstSound(src, dst, V, R, rank, degree);
    AfterNone(src, dst, V);
    steps := 1;
    while processed < |src|
      invariant Sound(src, dst, V, R, rank, order, degree, steps) && |order| == |src|
      invariant processed == |src| - Left(order, |src|)
      invariant 1 <= steps && order == After(src, dst, V, steps - 1)
      decreases Left(order, |src|)
    {
      AfterNext(src, dst, V, steps);
      order, degree, processed := Step(src, dst, V, R, rank, order, degree, steps, processed);
      steps := steps + 1;
    }
    AllDone(src, dst, V, R, rank, order, degree, steps);
  }

  lemma SoundSizes(src: seq<int>, dst: seq<int>, V: int, R: int, rank: seq<nat>, order: seq<int>, degree: seq<int>,
                   step: int)
    requires Sound(src, dst, V, R, rank, order, degree, step)
    ensures Net(src, dst, V, R) && |order| == |src| && |degree| == R && Waits(dst, V, order, degree)
  {
  }

  lemma Counted(dst: seq<int>, V: int, order: seq<int>, degree: seq<int>, freed: seq<int>, degree': seq<int>)
    requires |dst| == |order| && |degree| == |freed| == |degree'|
    requires forall r :: 0 <= r < |freed| ==> freed[r] == degree[r] - Into(dst, order, V + r, |dst|)
    requires forall r :: 0 <= r < |freed| ==> degree'[r] == degree[r] - freed[r]
    ensures Waits(dst, V, order, degree')
  {
  }

  lemma OneIsReady(src: seq<int>, dst: seq<int>, V: int, R: int, rank: seq<nat>, order: seq<int>, degree: seq<int>,
                   step: int)
    returns (e: int)
    requires Sound(src, dst, V, R, rank, order, degree, step) && Left(order, |src|) > 0
    ensures 0 <= e < |src| == |order| == |dst| && |degree| == R && Ready(src, V, order, degree, e) && step < INIT
  {
    LeftSome(order, |src|);
    var j :| 0 <= j < |src| && order[j] == INIT;
    e := SomeReady(src, dst, V, R, rank, order, degree, step, j);
    BelowSentinel(src, dst, V, R, rank, order, degree, step, e);
  }

  lemma StepShrinks(src: seq<int>, V: int, order: seq<int>, degree: seq<int>, step: int, next: seq<int>, e: int)
    requires Stepped(src, V, order, degree, step, next, |src|) && 0 <= e < |src| && Ready(src, V, order, degree, e)
             && step != INIT
    ensures Left(next, |src|) < Left(order, |src|)
  {
    ShrinksTo(order, next, e, |src|);
  }

  lemma {:induction false} ShrinksTo(order: seq<int>, next: seq<int>, e: int, n: int)
    requires 0 <= n <= |order| == |next| && 0 <= e < |order| && order[e] == INIT != next[e]
    requires forall j :: 0 <= j < |order| && next[j] == INIT ==> order[j] == INIT
    ensures Left(next, n) + (if e < n then 1 else 0) <= Left(order, n)
  {
    if n > 0 {
      ShrinksTo(order, next, e, n - 1);
    }
  }

  lemma AllDone(src: seq<int>, dst: seq<int>, V: int, R: int, rank: seq<nat>, order: seq<int>, degree: seq<int>,
                step: int)
    requires Sound(src, dst, V, R, rank, order, degree, step) && Left(order, |src|) == 0
    ensures AllPlaced(src, dst, V, order) && (forall j :: 0 <= j < |src| ==> order[j] < step && order[j] < INIT)
    ensures step == 1 || exists j :: 0 <= j < |src| && order[j] == step - 1
  {
    LeftSome(order, |src|);
  }
}
