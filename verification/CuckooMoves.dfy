/**
 What the steps of an insertion do to the bucket array: the array as it will be once everything has been migrated, the
 move of items along a path, the attempts of one round, and doubling.
 */
module CuckooMoves {
  import Cards
  import opened CuckooBuckets
  import opened CuckooPath
  import opened CuckooSlots

  // ---------- the array once everything is migrated ----------

  /** The new array as it will be when the pending old buckets have been moved. */
  ghost function Settle(H: Hasher, hp: nat, cur: seq<Bucket>, past: seq<Bucket>, pending: set<int>): (r: seq<Bucket>)
    requires Sound(H)
    ensures |r| == |cur| && forall b :: 0 <= b < |cur| ==> r[b] == SettleAt(H, hp, cur, past, pending, b)
  {
    seq(|cur|, b requires 0 <= b < |cur| => SettleAt(H, hp, cur, past, pending, b))
  }

  ghost function SettleAt(H: Hasher, hp: nat, cur: seq<Bucket>, past: seq<Bucket>, pending: set<int>, b: int)
    : (r: Bucket)
    requires Sound(H) && 0 <= b < |cur|
  {
    if hp >= 1 && b < |past| && b in pending then Low(H, hp - 1, past[b], b)
    else if hp >= 1 && |past| <= b < 2 * |past| && b - |past| in pending then
      High(H, hp - 1, past[b - |past|], b - |past|)
    else cur[b]
  }

  /** No pending old bucket will move to bucket `b`. */
  ghost predicate Untouched(past: seq<Bucket>, pending: set<int>, b: int) {
    b !in pending && b - |past| !in pending
  }

  lemma SettleNone(H: Hasher, hp: nat, cur: seq<Bucket>, past: seq<Bucket>)
    requires Sound(H)
    ensures Settle(H, hp, cur, past, {}) == cur
  {
  }

  /** Moving one bucket is a step towards it. */
  lemma SettleMoved(H: Hasher, hp: nat, cur: seq<Bucket>, past: seq<Bucket>, pending: set<int>, b: int)
    requires Sound(H) && hp >= 1 && b in pending && 0 <= b < |past| && |cur| == 2 * |past|
    ensures Settle(H, hp, Moved(H, hp - 1, cur, past, b), past, pending - {b}) == Settle(H, hp, cur, past, pending)
  {
    hide *;
    var cur' := Moved(H, hp - 1, cur, past, b);
    var one, two := Settle(H, hp, cur', past, pending - {b}), Settle(H, hp, cur, past, pending);
    forall c | 0 <= c < |cur| ensures one[c] == two[c] {
      SettleMovedAt(H, hp, cur, past, pending, b, c);
    }
  }

  lemma SettleMovedAt(H: Hasher, hp: nat, cur: seq<Bucket>, past: seq<Bucket>, pending: set<int>, b: int, c: int)
    requires Sound(H) && hp >= 1 && b in pending && 0 <= b < |past| && |cur| == 2 * |past| && 0 <= c < |cur|
    ensures SettleAt(H, hp, Moved(H, hp - 1, cur, past, b), past, pending - {b}, c) ==
            SettleAt(H, hp, cur, past, pending, c)
  {
    hide Moved, Low, High, Sound;
  }

  /** A write to a bucket that nothing will move to. */
  lemma SettleWritten(H: Hasher, hp: nat, cur: seq<Bucket>, past: seq<Bucket>, pending: set<int>, b: int, s: int,
                      x: Slot)
    requires Sound(H) && Slotted(cur, b, s) && Untouched(past, pending, b)
    ensures Slotted(Settle(H, hp, cur, past, pending), b, s)
    ensures Settle(H, hp, Written(cur, b, s, x), past, pending) ==
            Written(Settle(H, hp, cur, past, pending), b, s, x)
  {
    hide Low, High;
    var one := Settle(H, hp, Written(cur, b, s, x), past, pending);
    var two := Written(Settle(H, hp, cur, past, pending), b, s, x);
    forall c | 0 <= c < |cur| ensures one[c] == two[c] {
    }
  }

  lemma SettleHopped(H: Hasher, hp: nat, cur: seq<Bucket>, past: seq<Bucket>, pending: set<int>, fb: int, fs: int,
                     tb: int, ts: int)
    requires Sound(H) && Slotted(cur, fb, fs) && Slotted(cur, tb, ts)
    requires Untouched(past, pending, fb) && Untouched(past, pending, tb)
    ensures var all := Settle(H, hp, cur, past, pending);
            && Slotted(all, fb, fs) && Slotted(all, tb, ts)
            && Settle(H, hp, Hopped(cur, fb, fs, tb, ts), past, pending) == Hopped(all, fb, fs, tb, ts)
  {
    hide Settle, Low, High, Written;
    var mid: seq<Bucket> := Written(cur, tb, ts, cur[fb][fs]);
    SettleWritten(H, hp, cur, past, pending, tb, ts, cur[fb][fs]);
    SettleWritten(H, hp, mid, past, pending, fb, fs, Free);
    SettleSlot(H, hp, cur, past, pending, fb, fs);
  }

  lemma SettleSlot(H: Hasher, hp: nat, cur: seq<Bucket>, past: seq<Bucket>, pending: set<int>, b: int, s: int)
    requires Sound(H) && Slotted(cur, b, s) && Untouched(past, pending, b)
    ensures var all := Settle(H, hp, cur, past, pending); Slotted(all, b, s) && all[b] == cur[b]
  {
  }

  /** A bucket under a migrated lock stays as it is. */
  lemma MigratedUntouched(past: seq<Bucket>, migrated: seq<bool>, b: int)
    requires |migrated| >= 1 && 0 <= b && migrated[b % |migrated|]
    requires Pending(past, migrated) != {} ==> |past| % |migrated| == 0
    ensures Untouched(past, Pending(past, migrated), b)
  {
    if b - |past| in Pending(past, migrated) {
      SameLock(b - |past|, |past|, |migrated|);
    }
  }

  // ---------- doubling ----------

  /** The array of twice the size, every bucket split in two. */
  ghost function Doubled(H: Hasher, hp: nat, cur: seq<Bucket>): (r: seq<Bucket>)
    requires Sound(H)
    ensures |r| == 2 * |cur| && forall b :: 0 <= b < 2 * |cur| ==> r[b] == DoubledAt(H, hp, cur, b)
  {
    seq(2 * |cur|, b requires 0 <= b < 2 * |cur| => DoubledAt(H, hp, cur, b))
  }

  ghost function DoubledAt(H: Hasher, hp: nat, cur: seq<Bucket>, b: int): (r: Bucket)
    requires Sound(H) && 0 <= b < 2 * |cur|
  {
    if b < |cur| then Low(H, hp, cur[b], b) else High(H, hp, cur[b - |cur|], b - |cur|)
  }

  lemma SettleAside(H: Hasher, hp: nat, blank: seq<Bucket>, cur: seq<Bucket>)
    requires Sound(H) && |blank| == 2 * |cur|
    ensures Settle(H, hp + 1, blank, cur, Cards.Below(|cur|)) == Doubled(H, hp, cur)
  {
    hide Low, High;
    var one, two := Settle(H, hp + 1, blank, cur, Cards.Below(|cur|)), Doubled(H, hp, cur);
    forall b | 0 <= b < |blank| ensures one[b] == two[b] {
    }
  }

  // ---------- moving along a path ----------

  datatype Shifted = Shifted(ok: bool, cur: seq<Bucket>)

  /** The item is still where the path says, and the slot it goes to still free. */
  ghost predicate CanHop(H: Hasher, cur: seq<Bucket>, from: PathStep, to: PathStep) {
    FreeAt(cur, to.b, to.s) && ItemAt(cur, from.b, from.s) && H.hash(cur[from.b][from.s].key) == from.hash
  }

  /** The array after the moves along a path, the last one first, up to the first that cannot be made. */
  ghost function Shift(H: Hasher, cur: seq<Bucket>, path: seq<PathStep>): (r: Shifted)
    decreases |path|
  {
    var k := |path| - 1;
    if k < 1 then Shifted(k == 0 && FreeAt(cur, path[0].b, path[0].s), cur)
    else if !CanHop(H, cur, path[k - 1], path[k]) then Shifted(false, cur)
    else Shift(H, Hopped(cur, path[k - 1].b, path[k - 1].s, path[k].b, path[k].s), path[..k])
  }

  /** One hop of the moves. */
  lemma ShiftStep(H: Hasher, cur: seq<Bucket>, path: seq<PathStep>, k: int)
    requires 1 <= k < |path|
    ensures !CanHop(H, cur, path[k - 1], path[k]) ==> Shift(H, cur, path[..k + 1]) == Shifted(false, cur)
    ensures CanHop(H, cur, path[k - 1], path[k]) ==>
              var cur' := Hopped(cur, path[k - 1].b, path[k - 1].s, path[k].b, path[k].s);
              Shift(H, cur, path[..k + 1]) == Shift(H, cur', path[..k])
  {
    hide Hopped;
    assert path[..k + 1][..k] == path[..k];
  }

  lemma ShiftEnd(H: Hasher, cur: seq<Bucket>, path: seq<PathStep>)
    requires |path| >= 1
    ensures Shift(H, cur, path[..1]) == Shifted(FreeAt(cur, path[0].b, path[0].s), cur)
  {
  }

  /** Along a path that fits the array and has no slot twice, all moves can be made. */
  lemma {:induction false} ShiftFits(H: Hasher, cur: seq<Bucket>, path: seq<PathStep>)
    requires Fits(H, cur, path) && NoRepeat(path)
    ensures Shift(H, cur, path).ok
    decreases |path|
  {
    var k := |path| - 1;
    if k >= 1 {
      var from, to := path[k - 1], path[k];
      var cur': seq<Bucket> := Hopped(cur, from.b, from.s, to.b, to.s);
      FitsNext(H, cur, path);
      ShiftFits(H, cur', path[..k]);
    }
  }

  lemma FitsNext(H: Hasher, cur: seq<Bucket>, path: seq<PathStep>)
    requires Fits(H, cur, path) && NoRepeat(path) && |path| >= 2
    ensures var k := |path| - 1;
            && CanHop(H, cur, path[k - 1], path[k])
            && Fits(H, Hopped(cur, path[k - 1].b, path[k - 1].s, path[k].b, path[k].s), path[..k])
  {
    var k := |path| - 1;
    var from, to := path[k - 1], path[k];
    var cur': seq<Bucket> := Hopped(cur, from.b, from.s, to.b, to.s);
    forall n | 0 <= n < k - 1
      ensures ItemAt(cur', path[n].b, path[n].s) && H.hash(cur'[path[n].b][path[n].s].key) == path[n].hash
    {
      assert ItemAt(cur, path[n].b, path[n].s);
    }
  }

  // ---------- the attempts of one round ----------

  /** Each search gives a path, and the moves along it lead from one of the arrays `tables` to the next. */
  ghost predicate Attempts(H: Hasher, hp: nat, slots: int, i: int, j: int, views: seq<View>, tables: seq<seq<Bucket>>,
                           paths: seq<seq<PathStep>>, done: bool)
    requires Sound(H)
  {
    && |tables| == |paths| + 1 && |paths| <= |views|
    && forall n {:trigger paths[n]} :: 0 <= n < |paths| ==>
         && 1 <= slots && FoundBy(H, hp, slots, i, j, views[n], paths[n])
         && Shift(H, tables[n], paths[n]) == Shifted(done && n == |paths| - 1, tables[n + 1])
  }

  lemma OneMore(H: Hasher, hp: nat, slots: int, i: int, j: int, views: seq<View>, tables: seq<seq<Bucket>>,
                paths: seq<seq<PathStep>>, path: seq<PathStep>, r: Shifted)
    requires Sound(H) && Attempts(H, hp, slots, i, j, views, tables, paths, false) && |paths| < |views| && 1 <= slots
    requires FoundBy(H, hp, slots, i, j, views[|paths|], path) && r == Shift(H, tables[|paths|], path)
    ensures Attempts(H, hp, slots, i, j, views, tables + [r.cur], paths + [path], r.ok)
  {
    hide FoundBy, Shift;
  }

  /**
   The attempts of a round: the moves along all paths but the last fail.  The last attempt succeeds if `done`; otherwise
   there is no other, or the next search finds no free slot.
   */
  ghost predicate Tried(H: Hasher, hp: nat, slots: int, i: int, j: int, views: seq<View>, tables: seq<seq<Bucket>>,
                        paths: seq<seq<PathStep>>, done: bool)
    requires Sound(H)
  {
    && Attempts(H, hp, slots, i, j, views, tables, paths, done)
    && (if done then paths != [] else |paths| == |views| || Blind(H, hp, slots, i, j, views[|paths|]))
  }

  /** Path codes fit into 16 bits. */
  ghost predicate CodesFit(slots: int) {
    1 <= slots && 2 * Pow(slots, MAX_BFS_PATH_LEN) <= WORD16
  }

  /** When the first search sees the array as it is, a slot is made free exactly when one is free within reach. */
  lemma StillDecides(H: Hasher, hp: nat, slots: int, i: int, j: int, views: seq<View>, tables: seq<seq<Bucket>>,
                     paths: seq<seq<PathStep>>, done: bool)
    requires Sound(H) && Tried(H, hp, slots, i, j, views, tables, paths, done)
    requires views != [] && Still(views[0], tables[0]) && CodesFit(slots)
    ensures done <==> !Exhausted(H, hp, slots, tables[0], i, j)
  {
    hide FoundBy, Blind, Exhausted, Shift, Still;
    if paths == [] {
      BlindExhausted(H, hp, slots, i, j, views[0], tables[0]);
    } else {
      assert FoundBy(H, hp, slots, i, j, views[0], paths[0]);
      FoundMoves(H, hp, slots, i, j, views[0], tables[0], paths[0]);
      assert Shift(H, tables[0], paths[0]) == Shifted(done && 0 == |paths| - 1, tables[1]);
    }
  }

  lemma BlindExhausted(H: Hasher, hp: nat, slots: int, i: int, j: int, v: View, cur: seq<Bucket>)
    requires Sound(H) && 1 <= slots && Blind(H, hp, slots, i, j, v) && Still(v, cur)
    ensures Exhausted(H, hp, slots, cur, i, j)
  {
    hide Ordered, Swept, Exhausted;
    var q :| Ordered(i, j, q) && Swept(H, hp, slots, v.shots, q, |q|);
    SearchExact(H, hp, slots, cur, i, j, v.shots, q, |q|, false, Entry(0, 0, 0, 0, []));
  }

  lemma FoundMoves(H: Hasher, hp: nat, slots: int, i: int, j: int, v: View, cur: seq<Bucket>, path: seq<PathStep>)
    requires Sound(H) && CodesFit(slots) && FoundBy(H, hp, slots, i, j, v, path) && Still(v, cur)
    ensures !Exhausted(H, hp, slots, cur, i, j) && Shift(H, cur, path).ok
  {
    hide Ordered, Swept, Exhausted, Stopped, Ended, Retraced, OnPath, Encode, Fits, NoRepeat, Shift, Pow;
    var q, n, x, start, digits :| Found(H, hp, slots, i, j, v, q, n, x, start, digits, path);
    SearchExact(H, hp, slots, cur, i, j, v.shots, q, n, true, x);
    FoundFits(H, hp, slots, i, j, v, cur, q, n, x, start, digits, path);
    ShiftFits(H, cur, path);
  }

  /** A bucket without a free slot. */
  ghost predicate Crowded(cur: seq<Bucket>, b: int) {
    0 <= b < |cur| && forall s :: 0 <= s < |cur[b]| ==> cur[b][s].Full?
  }

  /** The slot for a new key: the last free one of the first bucket, or of the second if the first is full. */
  ghost predicate Choice(cur: seq<Bucket>, i: int, j: int, b: int, s: int) {
    && (0 <= i < |cur| && !Crowded(cur, i) ==> b == i && LastFree(cur[i], s))
    && (0 <= j < |cur| && Crowded(cur, i) && !Crowded(cur, j) ==> b == j && LastFree(cur[j], s))
  }

  ghost predicate LastFree(bucket: Bucket, s: int) {
    0 <= s < |bucket| && bucket[s].Free? && forall t :: s < t < |bucket| ==> bucket[t].Full?
  }

  /** An insertion finds no place: both buckets of the key are full, and all attempts fail, which leaves `cur'`. */
  ghost predicate NoPlace(H: Hasher, hp: nat, slots: int, key: int, views: seq<View>, cur: seq<Bucket>,
                          cur': seq<Bucket>)
    requires Sound(H)
  {
    var i, j := First(H, hp, key), Second(H, hp, key);
    && Crowded(cur, i) && Crowded(cur, j)
    && exists tables, paths :: && Tried(H, hp, slots, i, j, views, tables, paths, false)
                               && tables[0] == cur && tables[|paths|] == cur'
  }

  /** A round that ends with doubling. */
  ghost predicate RoundLost(H: Hasher, hp: nat, slots: int, key: int, views: seq<View>, cur: seq<Bucket>,
                            next: seq<Bucket>)
    requires Sound(H)
  {
    exists cur' :: NoPlace(H, hp, slots, key, views, cur, cur') && next == Doubled(H, hp, cur')
  }

  lemma LostCrowded(H: Hasher, hp: nat, slots: int, key: int, views: seq<View>, cur: seq<Bucket>, next: seq<Bucket>)
    requires Sound(H) && RoundLost(H, hp, slots, key, views, cur, next)
    ensures Crowded(cur, First(H, hp, key)) && Crowded(cur, Second(H, hp, key))
  {
    hide Crowded, Doubled, Tried;
  }

  lemma NowLost(H: Hasher, hp: nat, slots: int, key: int, views: seq<View>, cur: seq<Bucket>, cur': seq<Bucket>)
    requires Sound(H) && NoPlace(H, hp, slots, key, views, cur, cur')
    ensures RoundLost(H, hp, slots, key, views, cur, Doubled(H, hp, cur'))
  {
    hide NoPlace, Doubled;
  }

  /** A free slot in one of the two buckets is within reach. */
  lemma FreeInReach(H: Hasher, hp: nat, slots: int, cur: seq<Bucket>, i: int, j: int, b: int, s: int)
    requires Sound(H) && FreeAt(cur, b, s) && 0 <= s < slots && (b == i || b == j)
    ensures !Exhausted(H, hp, slots, cur, i, j)
  {
    var start := if b == i then 0 else 1;
    assert Route(H, hp, slots, cur, i, j, start, [], b);
    assert !ItemAt(cur, b, s);
  }
}
