/**
 The locking protocol of the concurrent cuckoo hash table, as a state machine over any number of threads.

 A thread that wants some buckets reads the hash power, works out lock numbers, fetches the current lock array, and
 takes its locks in ascending order; having taken the first, it compares the hash power with the one it had read, and
 starts over if it differs.  A thread that resizes takes all locks of the current array and of every array added
 meanwhile; it may then add a bigger array and change the hash power.  Old arrays stay, because threads may still be
 waiting on them.

 The fast way to double the table stores the hash power twice: the swap of the bucket arrays first brings back the one
 that the old bucket array still carries, from before the doubling before, and then the new one is stored.

 The guarantee is that a thread that has got its locks holds locks of the current array for the current hash power, and
 that nothing is resized meanwhile.  It holds in every run exactly when the table neither shrinks nor is doubled the
 fast way, or there are as many locks as there can be from the start, or there is at most one thread (`SafeExactly`).
 */
module LockProtocol {
  import opened Division

  datatype Phase =
    | Idle
    | Picked(hp: int, ls: seq<int>)
    | Taking(hp: int, ls: seq<int>, a: int, k: int, sure: bool)
    | Holding(hp: int, ls: seq<int>, a: int)
    | TakingAll(first: int, a: int, k: int)
    | AllHeld(first: int)
    | Grown(first: int, hp: int)
    | Swapped(first: int, hp: int)

  /**
   `past` is the hash power that the old bucket array still carries.  `arrays[a][l]` is the thread that has lock `l` of
   array `a`, or -1; `born[a]` is the hash power at which array `a` was added.
   */
  datatype State = State(hp: int, past: int, arrays: seq<seq<int>>, phases: seq<Phase>, born: seq<int>)

  /** Whether resizing may make the table smaller, and whether the table may be doubled the fast way. */
  datatype Mode = Mode(shrink: bool, fast: bool)

  const STEADY := Mode(false, false)

  datatype Action =
    | ReadPower(t: int, ls: seq<int>)
    | FetchLocks(t: int)
    | Take(t: int)
    | Check(t: int)
    | Return(t: int)
    | Release(t: int)
    | BeginAll(t: int)
    | TakeNext(t: int)
    | NextArray(t: int)
    | Grow(t: int, hp: int)
    | Swap(t: int, hp: int)
    | SetPower(t: int, hp: int)
    | EndAll(t: int)

  /** How many locks a table of hash power `hp` uses. */
  function Needed(hp: int, kmax: int): (n: int)
    ensures n <= kmax && (1 <= kmax ==> 1 <= n)
  {
    if Power(hp) < kmax then Power(hp) else kmax
  }

  ghost predicate Ascending(ls: seq<int>) {
    |ls| >= 1 && forall i, j :: 0 <= i < j < |ls| ==> ls[i] < ls[j]
  }

  function Last(s: State): (a: int) {
    |s.arrays| - 1
  }

  /** A resize changes the hash power. */
  ghost predicate Resizes(s: State, hp: int, mode: Mode) {
    0 <= hp && hp != s.hp && (mode.shrink || hp > s.hp)
  }

  /** A thread that resizes has all locks. */
  ghost predicate Resizing(ph: Phase) {
    ph.AllHeld? || ph.Grown? || ph.Swapped?
  }

  /** What the code of thread `act.t` requires of the state for its next step. */
  ghost predicate Enabled(s: State, act: Action, kmax: int, mode: Mode) {
    && 0 <= act.t < |s.phases| && |s.arrays| >= 1
    && var ph := s.phases[act.t];
       match act
       case ReadPower(_, ls) =>
         ph.Idle? && Ascending(ls) && forall i :: 0 <= i < |ls| ==> 0 <= ls[i] < Needed(s.hp, kmax)
       case FetchLocks(_) => ph.Picked?
       case Take(_) =>
         && ph.Taking? && 0 <= ph.k < |ph.ls| && (ph.k == 0 || ph.sure) && 0 <= ph.a < |s.arrays|
         && 0 <= ph.ls[ph.k] < |s.arrays[ph.a]| && s.arrays[ph.a][ph.ls[ph.k]] == -1
       case Check(_) =>
         && ph.Taking? && ph.k == 1 && !ph.sure && 1 <= |ph.ls| && 0 <= ph.a < |s.arrays|
         && 0 <= ph.ls[0] < |s.arrays[ph.a]|
       case Return(_) => ph.Taking? && ph.sure && ph.k == |ph.ls|
       case Release(_) => ph.Holding? && 0 <= ph.a < |s.arrays|
       case BeginAll(_) => ph.Idle?
       case TakeNext(_) =>
         ph.TakingAll? && 0 <= ph.a < |s.arrays| && 0 <= ph.k < |s.arrays[ph.a]| && s.arrays[ph.a][ph.k] == -1
       case NextArray(_) => ph.TakingAll? && 0 <= ph.a < |s.arrays| && ph.k == |s.arrays[ph.a]|
       case Grow(_, hp) => ph.AllHeld? && Resizes(s, hp, mode) && |s.arrays[Last(s)]| < Needed(hp, kmax)
       case Swap(_, hp) =>
         && mode.fast && (ph.AllHeld? || (ph.Grown? && ph.hp == hp)) && 0 <= hp == s.hp + 1
         && Needed(hp, kmax) <= |s.arrays[Last(s)]|
       case SetPower(_, hp) =>
         && 0 <= hp && Needed(hp, kmax) <= |s.arrays[Last(s)]|
         && (if ph.Swapped? then ph.hp == hp else (ph.AllHeld? || (ph.Grown? && ph.hp == hp)) && Resizes(s, hp, mode))
       case EndAll(_) => ph.AllHeld? && 0 <= ph.first <= Last(s)
  }

  function Freed(locks: seq<int>, ls: seq<int>): (r: seq<int>)
    ensures |r| == |locks| && forall l :: 0 <= l < |locks| ==> r[l] == if l in ls then -1 else locks[l]
  {
    seq(|locks|, l requires 0 <= l < |locks| => if l in ls then -1 else locks[l])
  }

  function FreedFrom(arrays: seq<seq<int>>, first: int): (r: seq<seq<int>>)
    ensures |r| == |arrays|
    ensures forall a :: 0 <= a < |arrays| ==> |r[a]| == |arrays[a]| && forall l :: 0 <= l < |arrays[a]| ==>
              r[a][l] == if first <= a then -1 else arrays[a][l]
  {
    seq(|arrays|, a requires 0 <= a < |arrays| => if first <= a then seq(|arrays[a]|, _ => -1) else arrays[a])
  }

  /** The state with another phase for thread `t`. */
  function Into(s: State, t: int, ph: Phase): (s': State)
    requires 0 <= t < |s.phases|
  {
    s.(phases := s.phases[t := ph])
  }

  /** The state with lock `l` of array `a` given to thread `t`. */
  function Given(s: State, a: int, l: int, t: int): (s': State)
    requires 0 <= a < |s.arrays| && 0 <= l < |s.arrays[a]|
  {
    s.(arrays := s.arrays[a := s.arrays[a][l := t]])
  }

  /** The state with one more lock array, all of whose locks thread `t` has. */
  function Enlarged(s: State, size: int, t: int): (s': State)
    requires 0 <= size
  {
    s.(arrays := s.arrays + [seq(size, _ => t)], born := s.born + [s.hp])
  }

  function Apply(s: State, act: Action, kmax: int, ghost mode: Mode): (s': State)
    requires Enabled(s, act, kmax, mode)
  {
    var t := act.t;
    var ph := s.phases[t];
    match act
    case ReadPower(_, ls) => Into(s, t, Picked(s.hp, ls))
    case FetchLocks(_) => Into(s, t, Taking(ph.hp, ph.ls, Last(s), 0, false))
    case Take(_) => Into(Given(s, ph.a, ph.ls[ph.k], t), t, Taking(ph.hp, ph.ls, ph.a, ph.k + 1, ph.sure))
    case Check(_) =>
      if s.hp == ph.hp then Into(s, t, Taking(ph.hp, ph.ls, ph.a, ph.k, true))
      else Into(Given(s, ph.a, ph.ls[0], -1), t, Idle)
    case Return(_) => Into(s, t, Holding(ph.hp, ph.ls, ph.a))
    case Release(_) => Into(s.(arrays := s.arrays[ph.a := Freed(s.arrays[ph.a], ph.ls)]), t, Idle)
    case BeginAll(_) => Into(s, t, TakingAll(Last(s), Last(s), 0))
    case TakeNext(_) => Into(Given(s, ph.a, ph.k, t), t, TakingAll(ph.first, ph.a, ph.k + 1))
    case NextArray(_) => Into(s, t, if ph.a == Last(s) then AllHeld(ph.first) else TakingAll(ph.first, ph.a + 1, 0))
    case Grow(_, hp) => Into(Enlarged(s, Needed(hp, kmax), t), t, Grown(ph.first, hp))
    case Swap(_, hp) => Into(s.(hp := s.past, past := s.hp), t, Swapped(ph.first, hp))
    case SetPower(_, hp) => Into(s.(hp := hp), t, AllHeld(ph.first))
    case EndAll(_) => Into(s.(arrays := FreedFrom(s.arrays, ph.first)), t, Idle)
  }

  /** One lock array, free, of the size the first hash power needs; no thread in the table. */
  ghost predicate Init(s: State, kmax: int) {
    && 0 <= s.hp && s.past == 0 && 1 <= kmax && |s.arrays| == |s.born| == 1 && |s.arrays[0]| == Needed(s.hp, kmax)
    && s.born[0] == s.hp
    && (forall l :: 0 <= l < |s.arrays[0]| ==> s.arrays[0][l] == -1)
    && (forall t :: 0 <= t < |s.phases| ==> s.phases[t].Idle?)
  }

  /** A run: states, and the actions between them. */
  ghost predicate Run(states: seq<State>, acts: seq<Action>, kmax: int, mode: Mode) {
    && |states| == |acts| + 1 && Init(states[0], kmax)
    && forall i :: 0 <= i < |acts| ==>
         Enabled(states[i], acts[i], kmax, mode) && states[i + 1] == Apply(states[i], acts[i], kmax, mode)
  }

  // ---------- what every step keeps ----------

  /** Thread phases say which locks they have. */
  ghost predicate Has(ph: Phase, a: int, l: int) {
    match ph
    case Taking(_, ls, b, k, _) => a == b && exists j :: 0 <= j < k && j < |ls| && ls[j] == l
    case Holding(_, ls, b) => a == b && l in ls
    case TakingAll(first, b, k) => first <= a < b || (a == b && l < k)
    case AllHeld(first) => first <= a
    case Grown(first, _) => first <= a
    case Swapped(first, _) => first <= a
    case Idle => false
    case Picked(_, _) => false
  }

  ghost predicate InLocks(s: State, a: int, l: int) {
    0 <= a < |s.arrays| && 0 <= l < |s.arrays[a]|
  }

  /** A lock is marked with the thread that has it. */
  ghost predicate Owned(s: State) {
    forall a, l, t {:trigger InLocks(s, a, l), s.phases[t]} :: InLocks(s, a, l) && 0 <= t < |s.phases| ==>
      (s.arrays[a][l] == t <==> Has(s.phases[t], a, l))
  }

  /** The arguments of a phase fit the arrays. */
  ghost predicate Fits(ph: Phase, s: State, kmax: int)
    requires |s.arrays| >= 1
  {
    match ph
    case Picked(hp, ls) => Ascending(ls) && forall i :: 0 <= i < |ls| ==> 0 <= ls[i] < |s.arrays[Last(s)]|
    case Taking(hp, ls, a, k, sure) =>
      && Ascending(ls) && 0 <= a < |s.arrays| && 0 <= k <= |ls| && (k > 1 ==> sure) && (sure ==> k >= 1)
      && forall i :: 0 <= i < |ls| ==> 0 <= ls[i] < |s.arrays[a]|
    case Holding(hp, ls, a) =>
      && Ascending(ls) && 0 <= a < |s.arrays|
      && forall i :: 0 <= i < |ls| ==> 0 <= ls[i] < |s.arrays[a]|
    case TakingAll(first, a, k) => 0 <= first <= a < |s.arrays| && 0 <= k <= |s.arrays[a]|
    case AllHeld(first) => 0 <= first < |s.arrays|
    case Grown(first, hp) => 0 <= first < |s.arrays| - 1
    case Swapped(first, hp) => 0 <= first < |s.arrays|
    case Idle => true
  }

  ghost predicate Shaped(s: State, kmax: int) {
    && |s.arrays| == |s.born| >= 1 && 0 <= s.hp && 1 <= kmax
    && (forall a :: 0 <= a < |s.arrays| ==> s.arrays[a] != [])
    && Needed(s.hp, kmax) <= |s.arrays[Last(s)]| <= kmax && 0 <= s.past && Needed(s.past, kmax) <= |s.arrays[Last(s)]|
    && (forall t :: 0 <= t < |s.phases| ==> Fits(s.phases[t], s, kmax))
  }

  // ---------- marks ----------

  lemma OwnedPhase(s: State, t: int, ph: Phase)
    requires Owned(s) && 0 <= t < |s.phases|
    requires forall a, l :: InLocks(s, a, l) ==> (Has(ph, a, l) <==> Has(s.phases[t], a, l))
    ensures Owned(Into(s, t, ph))
  {
    var s' := Into(s, t, ph);
    forall a, l, u | InLocks(s', a, l) && 0 <= u < |s'.phases|
      ensures s'.arrays[a][l] == u <==> Has(s'.phases[u], a, l)
    {
      assert InLocks(s, a, l) && s.phases[u] == s.phases[u];
    }
  }

  lemma OwnedGive(s: State, a: int, l: int, t: int, ph: Phase)
    requires Owned(s) && 0 <= t < |s.phases| && InLocks(s, a, l) && s.arrays[a][l] == -1
    requires forall b, k :: InLocks(s, b, k) ==> (Has(ph, b, k) <==> Has(s.phases[t], b, k) || (b == a && k == l))
    ensures Owned(Into(Given(s, a, l, t), t, ph))
  {
    var s' := Into(Given(s, a, l, t), t, ph);
    forall b, k, u | InLocks(s', b, k) && 0 <= u < |s'.phases|
      ensures s'.arrays[b][k] == u <==> Has(s'.phases[u], b, k)
    {
      assert InLocks(s, b, k) && s.phases[u] == s.phases[u];
    }
  }

  /** Thread `t` gives back exactly what it has. */
  lemma OwnedFree(s: State, arrays: seq<seq<int>>, t: int)
    requires Owned(s) && 0 <= t < |s.phases| && |arrays| == |s.arrays|
    requires forall a :: 0 <= a < |arrays| ==> |arrays[a]| == |s.arrays[a]|
    requires forall a, l {:trigger InLocks(s, a, l)} :: InLocks(s, a, l) ==>
               arrays[a][l] == if Has(s.phases[t], a, l) then -1 else s.arrays[a][l]
    ensures Owned(Into(s.(arrays := arrays), t, Idle))
  {
    var s' := Into(s.(arrays := arrays), t, Idle);
    forall a, l, u | InLocks(s', a, l) && 0 <= u < |s'.phases|
      ensures s'.arrays[a][l] == u <==> Has(s'.phases[u], a, l)
    {
      assert InLocks(s, a, l) && s.phases[u] == s.phases[u] && s.phases[t] == s.phases[t];
    }
  }

  /** Who has all locks of the current array is the only one to have any. */
  lemma AloneOnLast(s: State, kmax: int, t: int, u: int, l: int)
    requires Owned(s) && Shaped(s, kmax) && 0 <= t < |s.phases| && 0 <= u < |s.phases| && u != t
    requires Resizing(s.phases[t])
    requires 0 <= l < |s.arrays[Last(s)]|
    ensures !Has(s.phases[u], Last(s), l)
  {
    assert Fits(s.phases[t], s, kmax);
    assert InLocks(s, Last(s), l) && s.phases[u] == s.phases[u] && s.phases[t] == s.phases[t];
  }

  lemma OnlyOne(s: State, kmax: int, t: int, u: int)
    requires Owned(s) && Shaped(s, kmax) && 0 <= t < |s.phases| && 0 <= u < |s.phases|
    requires Resizing(s.phases[t])
    requires Resizing(s.phases[u])
    ensures t == u
  {
    assert Fits(s.phases[u], s, kmax);
    if t != u {
      AloneOnLast(s, kmax, t, u, 0);
    }
  }

  lemma OwnedGrow(s: State, kmax: int, t: int, size: int, hp: int)
    requires Owned(s) && Shaped(s, kmax) && 0 <= t < |s.phases| && s.phases[t].AllHeld? && 0 <= size
    ensures Owned(Into(Enlarged(s, size, t), t, Grown(s.phases[t].first, hp)))
  {
    var s' := Into(Enlarged(s, size, t), t, Grown(s.phases[t].first, hp));
    forall a, l, u | InLocks(s', a, l) && 0 <= u < |s'.phases|
      ensures s'.arrays[a][l] == u <==> Has(s'.phases[u], a, l)
    {
      assert Fits(s.phases[u], s, kmax);
      if a < |s.arrays| {
        assert InLocks(s, a, l) && s.phases[u] == s.phases[u];
      } else if u != t && (Resizing(s.phases[u])) {
        OnlyOne(s, kmax, t, u);
      }
    }
  }

  lemma OwnedStep(s: State, act: Action, kmax: int, mode: Mode)
    requires Owned(s) && Shaped(s, kmax) && Enabled(s, act, kmax, mode)
    ensures Owned(Apply(s, act, kmax, mode))
  {
    var t := act.t;
    var ph := s.phases[t];
    assert Fits(ph, s, kmax);
    match act
    case ReadPower(_, ls) => OwnedPhase(s, t, Picked(s.hp, ls));
    case FetchLocks(_) => OwnedPhase(s, t, Taking(ph.hp, ph.ls, Last(s), 0, false));
    case Take(_) => OwnedTake(s, act, kmax, mode);
    case Check(_) => OwnedCheck(s, act, kmax, mode);
    case Return(_) => OwnedReturn(s, act, kmax, mode);
    case Release(_) => OwnedFree(s, s.arrays[ph.a := Freed(s.arrays[ph.a], ph.ls)], t);
    case BeginAll(_) => OwnedPhase(s, t, TakingAll(Last(s), Last(s), 0));
    case TakeNext(_) => OwnedGive(s, ph.a, ph.k, t, TakingAll(ph.first, ph.a, ph.k + 1));
    case NextArray(_) => OwnedNext(s, act, kmax, mode);
    case Grow(_, hp) => OwnedGrow(s, kmax, t, Needed(hp, kmax), hp);
    case Swap(_, hp) => OwnedPower(s, t, s.past, s.hp, Swapped(ph.first, hp));
    case SetPower(_, hp) => OwnedPower(s, t, hp, s.past, AllHeld(ph.first));
    case EndAll(_) => OwnedFree(s, FreedFrom(s.arrays, ph.first), t);
  }

  lemma OwnedPower(s: State, t: int, hp: int, past: int, ph: Phase)
    requires Owned(s) && 0 <= t < |s.phases| && Resizing(s.phases[t]) && Resizing(ph) && ph.first == s.phases[t].first
    ensures Owned(Into(s.(hp := hp, past := past), t, ph))
  {
    var s1 := s.(hp := hp, past := past);
    forall a, l, u | InLocks(s1, a, l) && 0 <= u < |s1.phases|
      ensures s1.arrays[a][l] == u <==> Has(s1.phases[u], a, l)
    {
      assert InLocks(s, a, l) && s.phases[u] == s.phases[u];
    }
    OwnedPhase(s1, t, ph);
  }

  lemma OwnedTake(s: State, act: Action, kmax: int, mode: Mode)
    requires Owned(s) && Shaped(s, kmax) && Enabled(s, act, kmax, mode) && act.Take?
    ensures Owned(Apply(s, act, kmax, mode))
  {
    var ph := s.phases[act.t];
    var ph' := Taking(ph.hp, ph.ls, ph.a, ph.k + 1, ph.sure);
    forall b, k | InLocks(s, b, k) ensures Has(ph', b, k) <==> Has(ph, b, k) || (b == ph.a && k == ph.ls[ph.k]) {
      assert b == ph.a && k == ph.ls[ph.k] ==> 0 <= ph.k < ph'.k && ph'.ls[ph.k] == k;
      if Has(ph, b, k) {
        var j :| 0 <= j < ph.k && j < |ph.ls| && ph.ls[j] == k;
        assert 0 <= j < ph'.k && ph'.ls[j] == k;
      }
    }
    OwnedGive(s, ph.a, ph.ls[ph.k], act.t, ph');
  }

  lemma OwnedCheck(s: State, act: Action, kmax: int, mode: Mode)
    requires Owned(s) && Shaped(s, kmax) && Enabled(s, act, kmax, mode) && act.Check?
    ensures Owned(Apply(s, act, kmax, mode))
  {
    var ph := s.phases[act.t];
    if s.hp == ph.hp {
      OwnedPhase(s, act.t, Taking(ph.hp, ph.ls, ph.a, ph.k, true));
    } else {
      assert Has(ph, ph.a, ph.ls[0]) by { assert 0 <= 0 < ph.k && ph.ls[0] == ph.ls[0]; }
      OwnedFree(s, s.arrays[ph.a := s.arrays[ph.a][ph.ls[0] := -1]], act.t);
    }
  }

  lemma OwnedReturn(s: State, act: Action, kmax: int, mode: Mode)
    requires Owned(s) && Shaped(s, kmax) && Enabled(s, act, kmax, mode) && act.Return?
    ensures Owned(Apply(s, act, kmax, mode))
  {
    var ph := s.phases[act.t];
    forall b, k | InLocks(s, b, k) ensures Has(Holding(ph.hp, ph.ls, ph.a), b, k) <==> Has(ph, b, k) {
      if b == ph.a && k in ph.ls {
        var j :| 0 <= j < |ph.ls| && ph.ls[j] == k;
        assert 0 <= j < ph.k && ph.ls[j] == k;
      }
    }
    OwnedPhase(s, act.t, Holding(ph.hp, ph.ls, ph.a));
  }

  lemma OwnedNext(s: State, act: Action, kmax: int, mode: Mode)
    requires Owned(s) && Shaped(s, kmax) && Enabled(s, act, kmax, mode) && act.NextArray?
    ensures Owned(Apply(s, act, kmax, mode))
  {
    var ph := s.phases[act.t];
    OwnedPhase(s, act.t, if ph.a == Last(s) then AllHeld(ph.first) else TakingAll(ph.first, ph.a + 1, 0));
  }

  // ---------- shapes ----------

  /** Arrays keep their sizes; a new array at the end is bigger. */
  ghost predicate Extends(s: State, s': State) {
    && 1 <= |s.arrays| <= |s'.arrays| && |s'.phases| == |s.phases|
    && (forall a :: 0 <= a < |s.arrays| ==> |s'.arrays[a]| == |s.arrays[a]|)
    && |s'.arrays[Last(s')]| >= |s.arrays[Last(s)]|
  }

  lemma StepExtends(s: State, act: Action, kmax: int, mode: Mode)
    requires Shaped(s, kmax) && Enabled(s, act, kmax, mode)
    ensures var s' := Apply(s, act, kmax, mode);
            && Extends(s, s') && |s'.arrays| == |s'.born| && 0 <= s'.hp
            && Needed(s'.hp, kmax) <= |s'.arrays[Last(s')]| <= kmax
            && 0 <= s'.past && Needed(s'.past, kmax) <= |s'.arrays[Last(s')]|
            && (forall a :: 0 <= a < |s'.arrays| ==> s'.arrays[a] != [])
            && (forall u :: 0 <= u < |s.phases| && u != act.t ==> s'.phases[u] == s.phases[u])
  {
    hide Fits, Needed, Ascending;
  }

  lemma FitsStill(ph: Phase, s: State, s': State, kmax: int)
    requires Extends(s, s') && Fits(ph, s, kmax)
    ensures Fits(ph, s', kmax)
  {
  }

  lemma FitsNext(s: State, act: Action, kmax: int, mode: Mode)
    requires Shaped(s, kmax) && Enabled(s, act, kmax, mode)
    ensures var s' := Apply(s, act, kmax, mode); |s'.arrays| >= 1 && Fits(s'.phases[act.t], s', kmax)
  {
    assert Fits(s.phases[act.t], s, kmax);
    hide Needed, Shaped;
    StepExtends(s, act, kmax, mode);
  }

  lemma ShapedStep(s: State, act: Action, kmax: int, mode: Mode)
    requires Shaped(s, kmax) && Enabled(s, act, kmax, mode)
    ensures Shaped(Apply(s, act, kmax, mode), kmax)
  {
    hide Enabled, Apply, Fits, Needed;
    StepExtends(s, act, kmax, mode);
    var s' := Apply(s, act, kmax, mode);
    forall u | 0 <= u < |s'.phases| ensures Fits(s'.phases[u], s', kmax) {
      if u == act.t {
        FitsNext(s, act, kmax, mode);
      } else {
        FitsStill(s.phases[u], s, s', kmax);
      }
    }
  }

  // ---------- powers and arrays, when the hash power only ever grows ----------

  /** The hash power of a thread is not newer than its array, and a thread that has passed the check is up to date. */
  ghost predicate UpToDate(ph: Phase, s: State)
    requires |s.arrays| == |s.born| >= 1
  {
    match ph
    case Picked(hp, _) => hp <= s.hp
    case Taking(hp, _, a, _, sure) =>
      && hp <= s.hp && (0 <= a < Last(s) ==> hp <= s.born[a + 1])
      && (sure ==> a == Last(s) && hp == s.hp)
    case Holding(hp, _, a) => a == Last(s) && hp == s.hp
    case _ => true
  }

  /** An array is added at a smaller hash power than there is once the resize is over. */
  ghost predicate Aged(s: State)
    requires |s.arrays| == |s.born|
  {
    forall j :: 1 <= j < |s.born| ==> s.born[j] < s.hp || (j == Last(s) && s.born[j] <= s.hp && Growing(s))
  }

  ghost predicate Growing(s: State) {
    exists t :: 0 <= t < |s.phases| && s.phases[t].Grown?
  }

  ghost predicate Timely(s: State) {
    && |s.arrays| == |s.born| >= 1 && Aged(s)
    && forall t :: 0 <= t < |s.phases| ==> UpToDate(s.phases[t], s) && !s.phases[t].Swapped?
  }

  /** A thread that has passed the check goes by the current array and the current hash power. */
  ghost predicate Sure(s: State) {
    forall t :: 0 <= t < |s.phases| && Passed(s.phases[t]) ==> s.phases[t].a == Last(s) && s.phases[t].hp == s.hp
  }

  ghost predicate Passed(ph: Phase) {
    ph.Holding? || (ph.Taking? && ph.sure)
  }

  lemma TimelySure(s: State)
    requires Timely(s)
    ensures Sure(s)
  {
    forall t | 0 <= t < |s.phases| && Passed(s.phases[t]) ensures s.phases[t].a == Last(s) && s.phases[t].hp == s.hp {
      assert UpToDate(s.phases[t], s);
    }
  }

  /** While a thread has all locks, no other has passed the check. */
  lemma ResizerAlone(s: State, kmax: int, t: int, u: int)
    requires Owned(s) && Shaped(s, kmax) && Sure(s) && 0 <= t < |s.phases| && 0 <= u < |s.phases| && t != u
    requires Resizing(s.phases[t])
    ensures !Passed(s.phases[u]) && !Resizing(s.phases[u])
  {
    var ph := s.phases[u];
    assert Fits(ph, s, kmax);
    if Resizing(ph) {
      OnlyOne(s, kmax, t, u);
    } else if Passed(ph) {
      assert Has(ph, Last(s), ph.ls[0]) by { assert ph.Taking? ==> 0 <= 0 < ph.k && ph.ls[0] == ph.ls[0]; }
      AloneOnLast(s, kmax, t, u, ph.ls[0]);
    }
  }

  /** A thread that has taken its first lock has it in an array that a thread which adds an array has not taken. */
  lemma HeldEarlier(s: State, kmax: int, t: int, u: int)
    requires Owned(s) && Shaped(s, kmax) && 0 <= t < |s.phases| && 0 <= u < |s.phases|
    requires s.phases[t].Taking? && s.phases[t].k >= 1 && s.phases[u].Grown?
    ensures s.phases[t].a < s.phases[u].first
  {
    var ph := s.phases[t];
    assert Fits(ph, s, kmax);
    assert InLocks(s, ph.a, ph.ls[0]) && s.phases[u] == s.phases[u];
    assert Has(ph, ph.a, ph.ls[0]) by { assert 0 <= 0 < ph.k && ph.ls[0] == ph.ls[0]; }
  }

  lemma GrowersLater(s: State, kmax: int, t: int)
    requires Owned(s) && Shaped(s, kmax) && 0 <= t < |s.phases| && s.phases[t].Taking? && s.phases[t].k >= 1
    ensures forall u :: 0 <= u < |s.phases| && s.phases[u].Grown? ==> s.phases[t].a < s.phases[u].first < Last(s)
  {
    forall u | 0 <= u < |s.phases| && s.phases[u].Grown? ensures s.phases[t].a < s.phases[u].first < Last(s) {
      assert Fits(s.phases[u], s, kmax);
      HeldEarlier(s, kmax, t, u);
    }
  }

  /** The check succeeds only on the current array. */
  lemma CheckCurrent(s: State, kmax: int, t: int)
    requires Owned(s) && Shaped(s, kmax) && Timely(s) && 0 <= t < |s.phases|
    requires s.phases[t].Taking? && s.phases[t].k == 1 && s.phases[t].hp == s.hp
    ensures s.phases[t].a == Last(s)
  {
    var ph := s.phases[t];
    assert Fits(ph, s, kmax) && UpToDate(ph, s);
    GrowersLater(s, kmax, t);
  }

  lemma TimelyStep(s: State, act: Action, kmax: int)
    requires Owned(s) && Shaped(s, kmax) && Timely(s) && Enabled(s, act, kmax, STEADY)
    ensures Timely(Apply(s, act, kmax, STEADY))
  {
    StepExtends(s, act, kmax, STEADY);
    AgedStep(s, act, kmax);
    var s' := Apply(s, act, kmax, STEADY);
    forall u | 0 <= u < |s'.phases| ensures UpToDate(s'.phases[u], s') {
      if u == act.t {
        UpToDateNext(s, act, kmax);
      } else {
        UpToDateStill(s, act, kmax, u);
      }
    }
  }

  lemma AgedStep(s: State, act: Action, kmax: int)
    requires Owned(s) && Shaped(s, kmax) && Timely(s) && Enabled(s, act, kmax, STEADY)
    ensures var s' := Apply(s, act, kmax, STEADY); |s'.arrays| == |s'.born| && Aged(s')
  {
    var s' := Apply(s, act, kmax, STEADY);
    forall j | 1 <= j < |s'.born|
      ensures s'.born[j] < s'.hp || (j == Last(s') && s'.born[j] <= s'.hp && Growing(s'))
    {
      if act.Grow? {
        assert s'.phases[act.t].Grown?;
        if j < |s.born| && s.born[j] >= s.hp {
          var t :| 0 <= t < |s.phases| && s.phases[t].Grown?;
          OnlyOne(s, kmax, t, act.t);
        }
      } else if !act.SetPower? && s.born[j] >= s.hp {
        var t :| 0 <= t < |s.phases| && s.phases[t].Grown?;
        assert t != act.t && s'.phases[t].Grown?;
      }
    }
  }

  lemma UpToDateNext(s: State, act: Action, kmax: int)
    requires Owned(s) && Shaped(s, kmax) && Timely(s) && Enabled(s, act, kmax, STEADY)
    ensures var s' := Apply(s, act, kmax, STEADY); |s'.arrays| == |s'.born| >= 1 && UpToDate(s'.phases[act.t], s')
  {
    var ph := s.phases[act.t];
    assert UpToDate(ph, s);
    if act.Check? && ph.hp == s.hp {
      CheckCurrent(s, kmax, act.t);
    }
  }

  lemma UpToDateStill(s: State, act: Action, kmax: int, u: int)
    requires Owned(s) && Shaped(s, kmax) && Timely(s) && Enabled(s, act, kmax, STEADY) && 0 <= u < |s.phases|
    requires u != act.t
    ensures var s' := Apply(s, act, kmax, STEADY);
            |s'.arrays| == |s'.born| >= 1 && UpToDate(s.phases[u], s') && s'.phases[u] == s.phases[u]
  {
    assert UpToDate(s.phases[u], s) && Fits(s.phases[u], s, kmax);
    if act.Grow? || act.Swap? || act.SetPower? {
      TimelySure(s);
      ResizerAlone(s, kmax, act.t, u);
    }
  }

  // ---------- the theorems ----------

  /** A thread that has its locks holds them in the current array, for the current hash power, and nobody resizes. */
  ghost predicate Safe(s: State) {
    forall t :: 0 <= t < |s.phases| && s.phases[t].Holding? ==>
      var ph := s.phases[t];
      && ph.a == Last(s) && ph.hp == s.hp
      && (forall l :: l in ph.ls ==> InLocks(s, Last(s), l) && s.arrays[Last(s)][l] == t)
      && (forall u :: 0 <= u < |s.phases| ==> !Resizing(s.phases[u]))
  }

  lemma Holds(s: State, kmax: int)
    requires Owned(s) && Shaped(s, kmax) && Sure(s)
    ensures Safe(s)
  {
    forall t | 0 <= t < |s.phases| && s.phases[t].Holding?
      ensures var ph := s.phases[t];
              && ph.a == Last(s) && ph.hp == s.hp
              && (forall l :: l in ph.ls ==> InLocks(s, Last(s), l) && s.arrays[Last(s)][l] == t)
              && (forall u :: 0 <= u < |s.phases| ==> !Resizing(s.phases[u]))
    {
      var ph := s.phases[t];
      assert Passed(ph) && Fits(ph, s, kmax);
      forall l | l in ph.ls ensures InLocks(s, Last(s), l) && s.arrays[Last(s)][l] == t {
        assert InLocks(s, ph.a, l) && Has(ph, ph.a, l);
      }
      forall u | 0 <= u < |s.phases| ensures !Resizing(s.phases[u]) {
        if u != t && (Resizing(s.phases[u])) {
          ResizerAlone(s, kmax, u, t);
        }
      }
    }
  }

  lemma InitHolds(s: State, kmax: int)
    requires Init(s, kmax)
    ensures Owned(s) && Shaped(s, kmax) && Timely(s)
  {
  }

  lemma {:induction false} RunInvariant(states: seq<State>, acts: seq<Action>, kmax: int, i: int)
    requires Run(states, acts, kmax, STEADY) && 0 <= i < |states|
    ensures Owned(states[i]) && Shaped(states[i], kmax) && Timely(states[i])
  {
    if i == 0 {
      InitHolds(states[0], kmax);
    } else {
      hide Owned, Shaped, Timely, Enabled, Apply, Init;
      RunInvariant(states, acts, kmax, i - 1);
      assert Enabled(states[i - 1], acts[i - 1], kmax, STEADY)
             && states[i] == Apply(states[i - 1], acts[i - 1], kmax, STEADY);
      OwnedStep(states[i - 1], acts[i - 1], kmax, STEADY);
      ShapedStep(states[i - 1], acts[i - 1], kmax, STEADY);
      TimelyStep(states[i - 1], acts[i - 1], kmax);
    }
  }

  /** Without shrinking and without fast doubling, every state of every run is safe. */
  lemma Safety(states: seq<State>, acts: seq<Action>, kmax: int, i: int)
    requires Run(states, acts, kmax, STEADY) && 0 <= i < |states|
    ensures Safe(states[i])
  {
    hide Owned, Shaped, Timely, Run;
    RunInvariant(states, acts, kmax, i);
    TimelySure(states[i]);
    Holds(states[i], kmax);
  }

  ghost predicate BothHave(s: State, t: int, u: int, a: int, l: int) {
    && 0 <= t < |s.phases| && 0 <= u < |s.phases| && InLocks(s, a, l)
    && Has(s.phases[t], a, l) && Has(s.phases[u], a, l)
  }

  /** Two threads never have the same lock of the same array, whatever resizing does. */
  lemma Exclusion(s: State, t: int, u: int, a: int, l: int)
    requires Owned(s) && BothHave(s, t, u, a, l)
    ensures t == u
  {
    assert s.arrays[a][l] == t && s.arrays[a][l] == u;
  }

  // ---------- no cyclic waits ----------

  /** Thread phase `ph` waits for lock `l` of array `a`. */
  ghost predicate Wants(ph: Phase, a: int, l: int) {
    match ph
    case Taking(_, ls, b, k, sure) => a == b && 0 <= k < |ls| && l == ls[k] && (k == 0 || sure)
    case TakingAll(_, b, k) => a == b && l == k
    case _ => false
  }

  ghost predicate Before(a: int, l: int, b: int, k: int) {
    a < b || (a == b && l < k)
  }

  /** A thread waits only for locks behind all that it has. */
  lemma WantsLater(s: State, kmax: int, t: int, a: int, l: int, b: int, k: int)
    requires Shaped(s, kmax) && 0 <= t < |s.phases| && Has(s.phases[t], a, l) && Wants(s.phases[t], b, k)
    ensures Before(a, l, b, k)
  {
    assert Fits(s.phases[t], s, kmax);
  }

  /** `p[i]` waits for a lock that `p[i + 1]` has; the locks are `las[i]`. */
  ghost predicate Waits(s: State, p: seq<int>, las: seq<(int, int)>) {
    && |p| == |las| + 1 && |las| >= 1
    && (forall i :: 0 <= i < |p| ==> 0 <= p[i] < |s.phases|)
    && forall i :: 0 <= i < |las| ==>
         Wants(s.phases[p[i]], las[i].0, las[i].1) && Has(s.phases[p[i + 1]], las[i].0, las[i].1)
  }

  lemma {:induction false} WaitsGrow(s: State, kmax: int, p: seq<int>, las: seq<(int, int)>, i: int)
    requires Shaped(s, kmax) && Waits(s, p, las) && 0 <= i < |las|
    ensures i > 0 ==> Before(las[0].0, las[0].1, las[i].0, las[i].1)
  {
    if i > 0 {
      WaitsGrow(s, kmax, p, las, i - 1);
      WantsLater(s, kmax, p[i], las[i - 1].0, las[i - 1].1, las[i].0, las[i].1);
    }
  }

  /** No circle of threads, each waiting for a lock of the next. */
  lemma NoDeadlock(s: State, kmax: int, p: seq<int>, las: seq<(int, int)>)
    requires Shaped(s, kmax) && Waits(s, p, las)
    ensures p[0] != p[|p| - 1]
  {
    var n := |las| - 1;
    WaitsGrow(s, kmax, p, las, n);
    if p[0] == p[|p| - 1] {
      WantsLater(s, kmax, p[0], las[n].0, las[n].1, las[0].0, las[0].1);
    }
  }

  /** What every state of every run keeps, however the table is resized. */
  lemma {:induction false} RunKeeps(states: seq<State>, acts: seq<Action>, kmax: int, mode: Mode, i: int)
    requires Run(states, acts, kmax, mode) && 0 <= i < |states|
    ensures Owned(states[i]) && Shaped(states[i], kmax)
  {
    if i == 0 {
      InitHolds(states[0], kmax);
    } else {
      hide Owned, Shaped, Enabled, Apply, Init;
      RunKeeps(states, acts, kmax, mode, i - 1);
      assert Enabled(states[i - 1], acts[i - 1], kmax, mode)
             && states[i] == Apply(states[i - 1], acts[i - 1], kmax, mode);
      OwnedStep(states[i - 1], acts[i - 1], kmax, mode);
      ShapedStep(states[i - 1], acts[i - 1], kmax, mode);
    }
  }

  /** In every state of every run, no lock has two holders, and no threads wait for each other in a circle. */
  lemma EveryRun(states: seq<State>, acts: seq<Action>, kmax: int, mode: Mode, i: int)
    requires Run(states, acts, kmax, mode) && 0 <= i < |states|
    ensures forall t, u, a, l :: BothHave(states[i], t, u, a, l) ==> t == u
    ensures forall p, las :: Waits(states[i], p, las) ==> p[0] != p[|p| - 1]
  {
    hide Owned, Shaped, Run, Has;
    var s := states[i];
    RunKeeps(states, acts, kmax, mode, i);
    forall t, u, a, l | BothHave(s, t, u, a, l) ensures t == u {
      Exclusion(s, t, u, a, l);
    }
    forall p, las | Waits(s, p, las) ensures p[0] != p[|p| - 1] {
      NoDeadlock(s, kmax, p, las);
    }
  }

  // ---------- when the hash power may go down ----------

  /** No lock array can be added, or there is at most one thread, whose array is then the current one. */
  ghost predicate Firm(s: State, kmax: int) {
    || (|s.arrays| == 1 && |s.arrays[0]| == kmax)
    || (|s.phases| <= 1 && forall t :: 0 <= t < |s.phases| && s.phases[t].Taking? ==> s.phases[t].a == Last(s))
  }

  lemma FirmStep(s: State, act: Action, kmax: int, mode: Mode)
    requires Owned(s) && Shaped(s, kmax) && Sure(s) && Firm(s, kmax) && Enabled(s, act, kmax, mode)
    ensures var s' := Apply(s, act, kmax, mode); Sure(s') && Firm(s', kmax)
  {
    var s' := Apply(s, act, kmax, mode);
    assert Fits(s.phases[act.t], s, kmax);
    StepExtends(s, act, kmax, mode);
    forall u | 0 <= u < |s'.phases| && Passed(s'.phases[u])
      ensures s'.phases[u].a == Last(s') && s'.phases[u].hp == s'.hp
    {
      if u != act.t {
        assert s'.phases[u] == s.phases[u];
        if act.Grow? || act.Swap? || act.SetPower? {
          ResizerAlone(s, kmax, act.t, u);
        }
      }
    }
  }

  lemma {:induction false} FirmRun(states: seq<State>, acts: seq<Action>, kmax: int, mode: Mode, i: int)
    requires Run(states, acts, kmax, mode) && 0 <= i < |states|
    requires |states[0].arrays[0]| == kmax || |states[0].phases| <= 1
    ensures Sure(states[i]) && Firm(states[i], kmax)
  {
    if i > 0 {
      hide Owned, Shaped, Sure, Firm, Enabled, Apply, Init;
      FirmRun(states, acts, kmax, mode, i - 1);
      RunKeeps(states, acts, kmax, mode, i - 1);
      assert Enabled(states[i - 1], acts[i - 1], kmax, mode)
             && states[i] == Apply(states[i - 1], acts[i - 1], kmax, mode);
      FirmStep(states[i - 1], acts[i - 1], kmax, mode);
    }
  }

  ghost predicate Reaches(s: State, s': State, kmax: int, mode: Mode) {
    exists states, acts :: Path(states, acts, kmax, mode) && states[0] == s && states[|acts|] == s'
  }

  /** A piece of a run. */
  ghost predicate Path(states: seq<State>, acts: seq<Action>, kmax: int, mode: Mode) {
    && |states| == |acts| + 1
    && forall i :: 0 <= i < |acts| ==>
         Enabled(states[i], acts[i], kmax, mode) && states[i + 1] == Apply(states[i], acts[i], kmax, mode)
  }

  lemma Stay(s: State, kmax: int, mode: Mode)
    ensures Reaches(s, s, kmax, mode)
  {
    assert Path([s], [], kmax, mode);
  }

  lemma Go(s: State, s1: State, act: Action, s2: State, kmax: int, mode: Mode)
    requires Reaches(s, s1, kmax, mode) && Enabled(s1, act, kmax, mode) && Apply(s1, act, kmax, mode) == s2
    ensures Reaches(s, s2, kmax, mode)
  {
    hide Enabled, Apply;
    var states, acts :| Path(states, acts, kmax, mode) && states[0] == s && states[|acts|] == s1;
    var states', acts' := states + [s2], acts + [act];
    assert Path(states', acts', kmax, mode) && states'[0] == s && states'[|acts'|] == s2;
  }

  /** `n` locks, the first `k` of them with thread 1 and the others free. */
  ghost function Locks(n: int, k: int): (r: seq<int>)
    requires 0 <= n
    ensures |r| == n && forall l :: 0 <= l < n ==> r[l] == if l < k then 1 else -1
  {
    seq(n, l => if l < k then 1 else -1)
  }

  /** Two threads or more; thread 1 is idle, and the current array is `Locks(n, 0)`. */
  ghost predicate Open(s: State, n: int) {
    0 <= n && |s.phases| >= 2 && s.phases[1] == Idle && |s.arrays| >= 1 && s.arrays[Last(s)] == Locks(n, 0)
  }

  /** The state once thread 1 has begun to take all locks and has the first `k`. */
  ghost function Taken(s: State, n: int, k: int): (s': State)
    requires Open(s, n)
  {
    s.(arrays := s.arrays[Last(s) := Locks(n, k)], phases := s.phases[1 := TakingAll(Last(s), Last(s), k)])
  }

  /** Thread 1 takes the locks of the current array one by one. */
  lemma {:induction false} TakeSome(s: State, s1: State, n: int, k: nat, kmax: int, mode: Mode)
    requires Reaches(s, s1, kmax, mode) && Open(s1, n) && k <= n
    ensures Reaches(s, Taken(s1, n, k), kmax, mode)
  {
    hide Reaches, Path;
    if k == 0 {
      assert s1.arrays[Last(s1) := Locks(n, 0)] == s1.arrays;
      Go(s, s1, BeginAll(1), Taken(s1, n, 0), kmax, mode);
    } else {
      TakeSome(s, s1, n, k - 1, kmax, mode);
      var s2, s3 := Taken(s1, n, k - 1), Taken(s1, n, k);
      assert Locks(n, k - 1)[k - 1 := 1] == Locks(n, k);
      var s2' := Apply(s2, TakeNext(1), kmax, mode);
      assert s2'.arrays == s3.arrays && s2'.phases == s3.phases;
      Go(s, s2, TakeNext(1), s3, kmax, mode);
    }
  }

  /** Thread 1 has all locks. */
  ghost function Full(s: State, n: int): (s': State)
    requires Open(s, n)
  {
    s.(arrays := s.arrays[Last(s) := Locks(n, n)], phases := s.phases[1 := AllHeld(Last(s))])
  }

  lemma TakeAll(s: State, s1: State, n: int, kmax: int, mode: Mode)
    requires Reaches(s, s1, kmax, mode) && Open(s1, n)
    ensures Reaches(s, Full(s1, n), kmax, mode)
  {
    hide Reaches, Path;
    TakeSome(s, s1, n, n, kmax, mode);
    var s2, s3 := Taken(s1, n, n), Full(s1, n);
    assert s2.phases[1 := AllHeld(Last(s1))] == s3.phases;
    Go(s, s2, NextArray(1), s3, kmax, mode);
  }

  /** Thread 0 waits for lock 0 of the first array, having read hash power `hp`. */
  ghost predicate Waiting(s: State, hp: int) {
    |s.phases| >= 2 && s.phases[0] == Taking(hp, [0], 0, 0, false)
  }

  /** Thread 1 doubles a table that has fewer locks than the maximum, and leaves. */
  lemma Double(s: State, s1: State, n: int, kmax: int, mode: Mode) returns (s5: State)
    requires Reaches(s, s1, kmax, mode)
    requires Open(s1, n) && |s1.arrays| == 1 && 0 <= s1.hp && n < Needed(s1.hp + 1, kmax)
    ensures Reaches(s, s5, kmax, mode) && Open(s5, Needed(s1.hp + 1, kmax)) && |s5.arrays| == 2 && s5.hp == s1.hp + 1
    ensures s5.arrays[0] == s1.arrays[0] && |s5.phases| == |s1.phases| && s5.phases[0] == s1.phases[0]
  {
    hide Reaches, Path;
    TakeAll(s, s1, n, kmax, mode);
    var hp, m := s1.hp + 1, Needed(s1.hp + 1, kmax);
    var s2 := Full(s1, n);
    var s3 := Apply(s2, Grow(1, hp), kmax, mode);
    Go(s, s2, Grow(1, hp), s3, kmax, mode);
    var s4 := Apply(s3, SetPower(1, hp), kmax, mode);
    Go(s, s3, SetPower(1, hp), s4, kmax, mode);
    s5 := Apply(s4, EndAll(1), kmax, mode);
    Go(s, s4, EndAll(1), s5, kmax, mode);
    assert s5.arrays[1] == Locks(m, 0) && s5.arrays[0] == Locks(n, 0);
  }

  /** Thread 1 makes the table smaller, and leaves. */
  lemma Halve(s: State, s1: State, m: int, hp: int, kmax: int, mode: Mode) returns (s4: State)
    requires Reaches(s, s1, kmax, mode) && mode.shrink
    requires Open(s1, m) && |s1.arrays| == 2 && 0 <= hp != s1.hp && Needed(hp, kmax) <= m
    ensures Reaches(s, s4, kmax, mode) && |s4.arrays| == 2 && s4.hp == hp
    ensures s4.arrays[0] == s1.arrays[0] && |s4.phases| == |s1.phases| && s4.phases[0] == s1.phases[0]
  {
    hide Reaches, Path;
    TakeAll(s, s1, m, kmax, mode);
    var s2 := Full(s1, m);
    var s3 := Apply(s2, SetPower(1, hp), kmax, mode);
    Go(s, s2, SetPower(1, hp), s3, kmax, mode);
    s4 := Apply(s3, EndAll(1), kmax, mode);
    Go(s, s3, EndAll(1), s4, kmax, mode);
    assert s4.arrays[0] == s1.arrays[0];
  }

  /** Thread 0 reads the hash power and fetches the lock array. */
  lemma Approach(s: State, kmax: int, mode: Mode) returns (s2: State)
    requires Init(s, kmax) && |s.phases| >= 2
    ensures Reaches(s, s2, kmax, mode) && Waiting(s2, s.hp) && Open(s2, |s.arrays[0]|)
    ensures |s2.arrays| == 1 && s2.hp == s.hp
  {
    hide Reaches, Path;
    Stay(s, kmax, mode);
    var s1 := Apply(s, ReadPower(0, [0]), kmax, mode);
    Go(s, s, ReadPower(0, [0]), s1, kmax, mode);
    s2 := Apply(s1, FetchLocks(0), kmax, mode);
    Go(s, s1, FetchLocks(0), s2, kmax, mode);
    assert s2.arrays[0] == Locks(|s.arrays[0]|, 0);
  }

  /** Thread 0 takes the lock of the first array, finds the hash power it has read, and returns. */
  lemma Enter(s: State, s1: State, kmax: int, mode: Mode) returns (s4: State)
    requires Reaches(s, s1, kmax, mode) && Waiting(s1, s1.hp) && |s1.arrays| >= 2 && s1.arrays[0] != []
    requires s1.arrays[0][0] == -1
    ensures Reaches(s, s4, kmax, mode) && !Safe(s4)
  {
    hide Reaches, Path;
    var s2 := Apply(s1, Take(0), kmax, mode);
    Go(s, s1, Take(0), s2, kmax, mode);
    var s3 := Apply(s2, Check(0), kmax, mode);
    Go(s, s2, Check(0), s3, kmax, mode);
    s4 := Apply(s3, Return(0), kmax, mode);
    Go(s, s3, Return(0), s4, kmax, mode);
    assert s4.phases[0].Holding? && s4.phases[0].a != Last(s4);
  }

  /**
   When a resize may shrink the table, there are fewer locks than the maximum, and there is a second thread, some run
   leaves a thread with a lock of an array that is no longer the current one.
   */
  lemma ShrinkUnsafe(s: State, kmax: int, mode: Mode) returns (s': State)
    requires Init(s, kmax) && |s.arrays[0]| < kmax && |s.phases| >= 2 && mode.shrink
    ensures Reaches(s, s', kmax, mode) && !Safe(s')
  {
    hide Reaches, Path, Safe;
    var n := |s.arrays[0]|;
    var s1 := Approach(s, kmax, mode);
    assert Needed(s.hp + 1, kmax) > n;
    var s2 := Double(s, s1, n, kmax, mode);
    var s3 := Halve(s, s2, Needed(s.hp + 1, kmax), s.hp, kmax, mode);
    s' := Enter(s, s3, kmax, mode);
  }

  /** Thread 1, which has all locks, adds a lock array if doubling asks for one, and swaps the bucket arrays. */
  lemma SwapNow(s: State, s1: State, n: int, kmax: int, mode: Mode) returns (s3: State)
    requires Open(s1, n) && 0 <= s1.hp && n <= kmax && 1 <= kmax
    requires Reaches(s, Full(s1, n), kmax, mode) && mode.fast
    ensures Reaches(s, s3, kmax, mode) && s3.hp == s1.past && s3.past == s1.hp && |s3.phases| == |s1.phases|
    ensures s3.phases[1] == Swapped(Last(s1), s1.hp + 1) && s3.phases[0] == s1.phases[0]
    ensures if n < Needed(s1.hp + 1, kmax) then Wider(s1, s3, n, kmax) else s3.arrays == Full(s1, n).arrays
  {
    hide Reaches, Path;
    var hp, s2 := s1.hp + 1, Full(s1, n);
    if n < Needed(hp, kmax) {
      var g := Apply(s2, Grow(1, hp), kmax, mode);
      Go(s, s2, Grow(1, hp), g, kmax, mode);
      assert seq(Needed(hp, kmax), _ => 1) == Locks(Needed(hp, kmax), Needed(hp, kmax));
      s2 := g;
    }
    s3 := Apply(s2, Swap(1, hp), kmax, mode);
    Go(s, s2, Swap(1, hp), s3, kmax, mode);
  }

  /** One lock array more than in `s1`, all of whose locks thread 1 has; the arrays before the last one as in `s1`. */
  ghost predicate Wider(s1: State, s3: State, n: int, kmax: int)
    requires Open(s1, n) && 1 <= kmax
  {
    var m := Needed(s1.hp + 1, kmax);
    s3.arrays == Full(s1, n).arrays + [Locks(m, m)]
  }

  /** Thread 1 doubles a table the fast way, and leaves; the old bucket array keeps the hash power there was. */
  lemma DoubleFast(s: State, s1: State, n: int, kmax: int, mode: Mode) returns (s5: State)
    requires Reaches(s, s1, kmax, mode) && mode.fast
    requires Open(s1, n) && |s1.arrays| == 1 && 0 <= s1.hp && n < Needed(s1.hp + 1, kmax)
    ensures Reaches(s, s5, kmax, mode) && Open(s5, Needed(s1.hp + 1, kmax)) && |s5.arrays| == 2
    ensures s5.hp == s1.hp + 1 && s5.past == s1.hp
    ensures s5.arrays[0] == s1.arrays[0] && |s5.phases| == |s1.phases| && s5.phases[0] == s1.phases[0]
  {
    hide Reaches, Path;
    TakeAll(s, s1, n, kmax, mode);
    var s3 := SwapNow(s, s1, n, kmax, mode);
    var hp, m := s1.hp + 1, Needed(s1.hp + 1, kmax);
    var s4 := Apply(s3, SetPower(1, hp), kmax, mode);
    Go(s, s3, SetPower(1, hp), s4, kmax, mode);
    s5 := Apply(s4, EndAll(1), kmax, mode);
    Go(s, s4, EndAll(1), s5, kmax, mode);
    assert s5.arrays[1] == Locks(m, 0) && s5.arrays[0] == Locks(n, 0);
  }

  /**
   When the table is doubled the fast way, there are fewer locks than the maximum, and there is a second thread, some
   run does so although the table only grows: in the middle of the second doubling the old hash power shows up again.
   */
  lemma GrowthUnsafe(s: State, kmax: int, mode: Mode) returns (s': State)
    requires Init(s, kmax) && |s.arrays[0]| < kmax && |s.phases| >= 2 && mode.fast
    ensures Reaches(s, s', kmax, mode) && !Safe(s')
  {
    hide Reaches, Path, Safe;
    var n := |s.arrays[0]|;
    var s1 := Approach(s, kmax, mode);
    assert Needed(s.hp + 1, kmax) > n;
    var s2 := DoubleFast(s, s1, n, kmax, mode);
    TakeAll(s, s2, Needed(s.hp + 1, kmax), kmax, mode);
    var s3 := SwapNow(s, s2, Needed(s.hp + 1, kmax), kmax, mode);
    assert |s3.arrays| >= 2 && s3.arrays[0] == s2.arrays[0];
    s' := Enter(s, s3, kmax, mode);
  }

  /** Every state of every run from `s` is safe. */
  ghost predicate AlwaysSafe(s: State, kmax: int, mode: Mode) {
    forall states, acts, i :: Run(states, acts, kmax, mode) && states[0] == s && 0 <= i < |states| ==> Safe(states[i])
  }

  /**
   The guarantee holds exactly when the table neither shrinks nor is doubled the fast way, or there are as many locks as
   there can be from the start, or there is at most one thread.
   */
  lemma SafeExactly(s: State, kmax: int, mode: Mode)
    requires Init(s, kmax)
    ensures AlwaysSafe(s, kmax, mode) <==> mode == STEADY || |s.arrays[0]| == kmax || |s.phases| <= 1
  {
    hide Safe, Enabled, Apply, Owned, Shaped, Sure, Firm;
    if mode == STEADY || |s.arrays[0]| == kmax || |s.phases| <= 1 {
      forall states, acts, i | Run(states, acts, kmax, mode) && states[0] == s && 0 <= i < |states|
        ensures Safe(states[i])
      {
        if mode == STEADY {
          Safety(states, acts, kmax, i);
        } else {
          RunKeeps(states, acts, kmax, mode, i);
          FirmRun(states, acts, kmax, mode, i);
          Holds(states[i], kmax);
        }
      }
    } else {
      var s';
      if mode.fast {
        s' := GrowthUnsafe(s, kmax, mode);
      } else {
        s' := ShrinkUnsafe(s, kmax, mode);
      }
      var states, acts :| Path(states, acts, kmax, mode) && states[0] == s && states[|acts|] == s';
      assert Run(states, acts, kmax, mode) && !Safe(states[|acts|]);
    }
  }
}
