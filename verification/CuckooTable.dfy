/**
 The concurrent cuckoo hash table as the map it stands for, doubled with lazy migration.

 Every operation takes the locks of the buckets it works on, and taking a lock moves the old buckets of that lock first.
 The operations here are those of one thread between taking and releasing its locks.
 */
module CuckooTables {
  import Cards
  import opened CuckooBuckets
  import opened CuckooPath
  import opened CuckooSlots
  import opened CuckooMoves
  import opened Division

  class CuckooTable {
    var hp: nat
    var buckets: seq<Bucket>
    var past: seq<Bucket>
    var migrated: seq<bool>
    var remaining: int
    const H: Hasher
    const slots: nat
    const maxPower: nat
    var counters: seq<int>
    ghost var pending: set<int>
    ghost var contents: map<int, int>

    /** There are as many locks as buckets, up to a maximum. */
    ghost function LockPower(): (n: nat)
      reads this
    {
      if hp < maxPower then hp else maxPower
    }

    ghost predicate Bare()
      reads this
    {
      && Sound(H) && |counters| == |migrated| == Power(LockPower()) && |buckets| == Power(hp)
      && Sized(buckets, past, slots)
      && Distinct(buckets, past, pending) && NewHomed(H, hp, buckets)
      && (pending != {} ==> && hp >= 1 && |past| == Power(hp - 1)
                            && Homed(H, hp - 1, buckets, past, pending) && Blank(buckets, past, pending))
    }

    ghost predicate Valid()
      reads this
    {
      && Bare() && pending == Pending(past, migrated) && remaining == Unmigrated(migrated)
      && (remaining > 0 ==> |past| % |migrated| == 0) && (remaining == 0 ==> past == [])
    }

    /** What the table holds. */
    ghost predicate Has(key: int, value: int)
      reads this
    {
      Holds(buckets, past, pending, Full(key, value))
    }

    /** The table stands for the map `contents`, and its counters add up to the number of keys. */
    ghost predicate Stands()
      reads this
    {
      && Valid() && Sum(counters) == |contents|
      && forall k, v :: Has(k, v) <==> k in contents && contents[k] == v
    }

    /** The buckets as they will be once everything has been migrated. */
    ghost function Settled(): (r: seq<Bucket>)
      requires Sound(H)
      reads this
    {
      Settle(H, hp, buckets, past, pending)
    }

    /** An empty table. */
    constructor (H: Hasher, hp: nat, slots: nat, maxPower: nat)
      requires Sound(H)
      ensures Stands() && this.hp == hp && remaining == 0 && contents == map[]
    {
      this.H, this.slots, this.maxPower, this.hp := H, slots, maxPower, hp;
      buckets, past, pending, contents := EmptyBuckets(Power(hp), slots), [], {}, map[];
      var locks := Power(if hp < maxPower then hp else maxPower);
      migrated, remaining, counters := seq(locks, _ => true), 0, seq(locks, _ => 0);
      new;
      hide Power;
      NoneLeft(migrated);
      SumZeros([], locks);
      assert counters == [] + seq(locks, _ => 0);
    }

    /**
     What a reader sees: once the locks of both buckets of a key are migrated, the key is in the table exactly when it
     is in one of these two buckets.
     */
    lemma ReaderSees(key: int, value: int)
      requires Valid()
      requires var i, j := First(H, hp, key), Second(H, hp, key); migrated[i % |migrated|] && migrated[j % |migrated|]
      ensures var i, j := First(H, hp, key), Second(H, hp, key);
              && 0 <= i < |buckets| && 0 <= j < |buckets|
              && (Has(key, value) <==> Full(key, value) in buckets[i] || Full(key, value) in buckets[j])
    {
      hide Distinct, Blank, Index, AltIndex;
      var i, j, x := First(H, hp, key), Second(H, hp, key), Full(key, value);
      HomesInRange(H, hp, key);
      if Has(key, value) {
        var pl :| Shown(buckets, past, pending, pl) && At(buckets, past, pending, pl) == x;
        if pl.Old? {
          OldMigrated(key, pl.b, pl.s);
        }
        assert buckets[pl.b][pl.s] == x;
      }
      if x in buckets[i] {
        var s :| 0 <= s < |buckets[i]| && buckets[i][s] == x;
        assert Shown(buckets, past, pending, New(i, s)) && At(buckets, past, pending, New(i, s)) == x;
      }
      if x in buckets[j] {
        var s :| 0 <= s < |buckets[j]| && buckets[j][s] == x;
        assert Shown(buckets, past, pending, New(j, s)) && At(buckets, past, pending, New(j, s)) == x;
      }
    }

    /** An old bucket of a key has the lock of one of its new buckets. */
    lemma OldMigrated(key: int, b: int, s: int)
      requires Valid() && Shown(buckets, past, pending, Old(b, s)) && past[b][s].Full? && past[b][s].key == key
      ensures var i, j := First(H, hp, key), Second(H, hp, key); !migrated[i % |migrated|] || !migrated[j % |migrated|]
    {
      hide Distinct, Blank, Index, AltIndex, Sized, Pending, Unmigrated, NewHomed, Power;
      PendingLock(b);
      assert At(buckets, past, pending, Old(b, s)).Full?;
      assert Home(H, hp - 1, key, b);
      Doubling(hp - 1, H.hash(key), H.mix(key));
      SameLock(b, |past|, |migrated|);
    }

    lemma PendingLock(b: int)
      requires Valid() && b in pending
      ensures 0 <= b < |past| && |past| % |migrated| == 0 && !migrated[b % |migrated|]
    {
      hide Bare;
      NoneLeft(migrated);
    }

    /** Moves old bucket `b` into the two buckets it splits into. */
    method MoveBucket(b: int)
      requires Bare() && b in pending
      modifies this`buckets, this`pending
      ensures Bare() && pending == old(pending) - {b} && |buckets| == old(|buckets|)
      ensures forall k, v :: Has(k, v) <==> old(Has(k, v))
      ensures Settled() == old(Settled())
    {
      hide Distinct, Homed, Home, Power, Holds, Settle;
      Relocated(b);
      SettleMoved(H, hp, buckets, past, pending, b);
      var low, high := Distribute(H, hp - 1, past[b], b, buckets[b], buckets[b + |past|]);
      buckets := buckets[b := low][b + |past| := high];
      pending := pending - {b};
    }

    /** What the move of bucket `b` keeps. */
    lemma Relocated(b: int)
      requires Bare() && b in pending
      ensures 0 <= b < |past| && |buckets| == 2 * |past| && hp >= 1
      ensures |past[b]| == |buckets[b]| == |buckets[b + |past|]|
      ensures Empty(buckets[b]) && Empty(buckets[b + |past|])
      ensures var cur', pending' := Moved(H, hp - 1, buckets, past, b), pending - {b};
              && Sized(cur', past, slots) && Blank(cur', past, pending') && Distinct(cur', past, pending')
              && Homed(H, hp - 1, cur', past, pending')
              && NewHomed(H, hp, cur')
              && forall x: Slot :: x.Full? ==> (Holds(cur', past, pending', x) <==> Holds(buckets, past, pending, x))
    {
      hide Distinct, Holds, Moved, Homed, NewHomed, Sound;
      MoveOne(H, hp - 1, buckets, past, pending, slots, b);
      HomedNew(H, hp - 1, Moved(H, hp - 1, buckets, past, b), past, pending - {b});
    }

    /** The old buckets of lock `l` from `b` on, and those of the locks not migrated, are pending. */
    ghost predicate Underway(l: int, b: int)
      reads this
    {
      && Bare() && 0 <= l < |migrated| && !migrated[l] && 0 <= b && b % |migrated| == l && |past| % |migrated| == 0
      && pending == (set c | 0 <= c < |past| && !migrated[c % |migrated|] && (c % |migrated| == l ==> b <= c))
    }

    lemma NextInLock(l: int, b: int)
      requires Underway(l, b) && b < |past|
      ensures b in pending && (b + |migrated|) % |migrated| == l
      ensures pending - {b} == (set c | 0 <= c < |past| && !migrated[c % |migrated|] && (c % |migrated| == l ==>
                b + |migrated| <= c))
    {
      hide Bare;
      ModPlus(b, |migrated|);
      forall c | 0 <= c < |past| && c % |migrated| == l && b <= c < b + |migrated| ensures c == b {
        ModGap(b, c, |migrated|);
      }
    }

    /** Moves the old buckets of lock `l`, unless that has been done; frees the old array after the last lock. */
    method RehashLock(l: int)
      requires Valid() && 0 <= l < |migrated|
      modifies this`buckets, this`past, this`migrated, this`remaining, this`pending
      ensures Valid() && |migrated| == old(|migrated|) && migrated == old(migrated)[l := true]
      ensures forall k, v :: Has(k, v) <==> old(Has(k, v))
      ensures Settled() == old(Settled())
    {
      hide Sized, Distinct, NewHomed, Homed, Blank, Holds, Power, Settle;
      if migrated[l] {
        return;
      }
      var b := l;
      StartLock(l);
      while b < |past|
        invariant Underway(l, b) && remaining == Unmigrated(migrated) && remaining > 0
        invariant past == old(past) && migrated == old(migrated) && hp == old(hp)
        invariant forall k, v :: Has(k, v) <==> old(Has(k, v))
        invariant Settled() == old(Settled())
        decreases |past| - b
      {
        NextInLock(l, b);
        MoveBucket(b);
        b := b + |migrated|;
      }
      OneLess(migrated, l);
      EndLock(l, b);
      migrated := migrated[l := true];
      remaining := remaining - 1;
      if remaining == 0 {
        FreePast();
        SettleNone(H, hp, buckets, past);
        SettleNone(H, hp, buckets, []);
        past := [];
      }
    }

    lemma StartLock(l: int)
      requires Valid() && 0 <= l < |migrated| && !migrated[l]
      ensures Underway(l, l) && remaining > 0
    {
      hide Bare;
      NoneLeft(migrated);
      ModUnique(l, |migrated|, 0, l);
      forall c | 0 <= c < |past| && c % |migrated| == l ensures l <= c {
        assert c % |migrated| <= c by { ModAtMost(c, |migrated|); }
      }
    }

    lemma EndLock(l: int, b: int)
      requires Underway(l, b) && b >= |past|
      ensures pending == Pending(past, migrated[l := true])
    {
      hide Bare;
    }

    /** When every lock has been migrated, nothing of the old array counts any more. */
    lemma FreePast()
      requires Bare() && pending == Pending(past, migrated) && Unmigrated(migrated) == 0
      ensures pending == {} && Pending([], migrated) == {} && Sized(buckets, [], slots) && Distinct(buckets, [], {})
      ensures forall x: Slot :: Holds(buckets, [], {}, x) <==> Holds(buckets, past, pending, x)
    {
      hide NewHomed, Homed, Blank, Distinct, Sized, Holds;
      NoneLeft(migrated);
      assert pending == {};
      DropPast(buckets, past, slots);
    }

    /** Migrates everything that is left. */
    method FinishAll()
      requires Valid()
      modifies this`buckets, this`past, this`migrated, this`remaining, this`pending
      ensures Valid() && |migrated| == old(|migrated|) && remaining == 0 && pending == {}
      ensures forall k, v :: Has(k, v) <==> old(Has(k, v))
      ensures buckets == old(Settled())
    {
      SoundHere();
      hide Valid, Holds, Bare, Settle;
      var i := 0;
      while i < |migrated|
        invariant 0 <= i <= |migrated| == old(|migrated|) && Valid() && hp == old(hp)
        invariant forall l :: 0 <= l < i ==> migrated[l]
        invariant forall k, v :: Has(k, v) <==> old(Has(k, v))
        invariant Settled() == old(Settled())
      {
        RehashLock(i);
        i := i + 1;
      }
      AllDone();
      SettleNone(H, hp, buckets, past);
    }

    lemma SoundHere()
      requires Valid()
      ensures Sound(H)
    {
    }

    lemma AllDone()
      requires Valid() && forall l :: 0 <= l < |migrated| ==> migrated[l]
      ensures remaining == 0 && pending == {}
    {
      hide Bare;
      NoneLeft(migrated);
    }

    /**
     Doubles the table: finishes the last migration, adds locks if there are fewer than the maximum, puts the buckets
     aside, and either moves them at once, when they are fewer than the maximum of locks, or leaves that to whoever
     takes a lock first.
     */
    method FastDouble()
      requires Valid()
      modifies this`hp, this`buckets, this`past, this`migrated, this`remaining, this`counters, this`pending
      ensures Valid() && hp == old(hp) + 1 && Sum(counters) == old(Sum(counters))
      ensures forall k, v :: Has(k, v) <==> old(Has(k, v))
      ensures if Power(old(hp)) < Power(maxPower) then remaining == 0 else remaining == |migrated|
      ensures Settled() == Doubled(H, old(hp), old(Settled()))
    {
      hide Holds, Distinct, NewHomed, Homed, Blank, Sized, Power, Unmigrated, Pending, Settle, Doubled;
      FinishAll();
      SetAside();
      if |past| < Power(maxPower) {
        MoveAll();
      } else {
        LeaveToLocks();
      }
    }

    lemma LocksDivide()
      requires hp >= 1 && |past| == Power(hp - 1) && |migrated| == Power(LockPower()) && |past| >= Power(maxPower)
      ensures |past| % |migrated| == 0
    {
      PowerOrder(hp - 1, maxPower);
      PowerDivides(maxPower, hp - 1);
    }

    /** Marks every lock as not migrated. */
    method LeaveToLocks()
      requires Bare() && hp >= 1 && |past| == Power(hp - 1) >= Power(maxPower) && pending == Cards.Below(|past|)
      modifies this`migrated, this`remaining
      ensures Valid() && |migrated| == old(|migrated|) == remaining && Settled() == old(Settled())
    {
      hide Distinct, NewHomed, Homed, Blank, Sized, Power, Pending, Unmigrated, Settle;
      LocksDivide();
      migrated := seq(|migrated|, _ => false);
      AllLeft(migrated);
      remaining := |migrated|;
      EveryLock();
    }

    /**
     The locks are as many as the doubled table asks for; the buckets become the old ones, and an empty array of twice
     the size takes their place.
     */
    method SetAside()
      requires Valid() && remaining == 0 && pending == {}
      modifies this`buckets, this`hp, this`past, this`pending, this`migrated, this`counters
      ensures Bare() && hp == old(hp) + 1 && |past| == Power(hp - 1) && pending == Cards.Below(|past|)
      ensures remaining == 0 == Unmigrated(migrated) && Sum(counters) == old(Sum(counters))
      ensures forall k, v :: Has(k, v) <==> old(Has(k, v))
      ensures Settled() == Doubled(H, old(hp), old(buckets))
    {
      hide Holds, Distinct, NewHomed, Homed, Blank, Sized, Power, Unmigrated, Pending, Sound, Sum, EmptyBuckets, Settle,
           Doubled;
      PutAside();
      AsideSize();
      SettleAside(H, hp, EmptyBuckets(Power(hp + 1), slots), buckets);
      FitLocks();
      past, pending := buckets, Cards.Below(|buckets|);
      buckets := EmptyBuckets(Power(hp + 1), slots);
      hp := hp + 1;
    }

    lemma AsideSize()
      requires Valid()
      ensures Power(hp + 1) == 2 * |buckets|
    {
    }

    /** Adds locks if the doubled table asks for more. */
    method FitLocks()
      requires Valid() && remaining == 0
      modifies this`migrated, this`counters
      ensures |counters| == |migrated| == Power(if hp + 1 < maxPower then hp + 1 else maxPower)
      ensures Unmigrated(migrated) == 0 && Sum(counters) == old(Sum(counters))
    {
      hide Distinct, NewHomed, Homed, Blank, Sized, Power, Unmigrated, Pending, Sound, Sum;
      PowerOrder(hp, hp + 1);
      PowerOrder(hp, maxPower);
      if |migrated| < Power(maxPower) && |migrated| < Power(hp + 1) {
        GrowLocks();
      }
    }

    /** Adds locks, each migrated and with nothing counted. */
    method GrowLocks()
      requires Valid() && remaining == 0 && |migrated| < Power(maxPower)
      modifies this`migrated, this`counters
      ensures hp < maxPower && |counters| == |migrated| == Power(hp + 1)
      ensures Unmigrated(migrated) == 0 && Sum(counters) == old(Sum(counters))
    {
      hide Distinct, NewHomed, Homed, Blank, Sized, Pending, Unmigrated;
      var size := if Power(maxPower) < Power(hp + 1) then Power(maxPower) else Power(hp + 1);
      PowerOrder(hp + 1, maxPower);
      var more := size - |migrated|;
      NoneLeft(migrated);
      SumZeros(counters, more);
      migrated := migrated + seq(more, _ => true);
      counters := counters + seq(more, _ => 0);
      NoneLeft(migrated);
    }

    /** Moves all buckets at once. */
    method MoveAll()
      requires Bare() && pending == Cards.Below(|past|) && remaining == 0 == Unmigrated(migrated)
      modifies this`buckets, this`pending, this`past
      ensures Valid() && |buckets| == old(|buckets|)
      ensures forall k, v :: Has(k, v) <==> old(Has(k, v))
      ensures Settled() == old(Settled())
    {
      hide Holds, Distinct, NewHomed, Homed, Blank, Sized, Power, Sound, Unmigrated, Settle;
      var b := 0;
      NoneBelow();
      while b < |past|
        invariant 0 <= b <= |past| && Bare() && past == old(past) && |buckets| == old(|buckets|)
        invariant forall c :: c in pending <==> b <= c < |past|
        invariant forall k, v :: Has(k, v) <==> old(Has(k, v))
        invariant Settled() == old(Settled())
      {
        MoveBucket(b);
        b := b + 1;
      }
      assert pending == {};
      DropPast(buckets, past, slots);
      SettleNone(H, hp, buckets, past);
      SettleNone(H, hp, buckets, []);
      past := [];
    }

    lemma NoneBelow()
      ensures forall c :: c in Cards.Below(|past|) <==> 0 <= c < |past|
    {
    }

    lemma EveryLock()
      requires |migrated| >= 1 && forall l :: 0 <= l < |migrated| ==> !migrated[l]
      ensures Cards.Below(|past|) == Pending(past, migrated)
    {
    }

    /** The buckets, put aside in front of an empty array of twice the size, hold what they held. */
    lemma PutAside()
      requires Valid() && remaining == 0 && pending == {}
      ensures var all, blank := Cards.Below(|buckets|), EmptyBuckets(Power(hp + 1), slots);
              && |blank| == Power(hp + 1) && Sized(blank, buckets, slots) && Distinct(blank, buckets, all)
              && NewHomed(H, hp + 1, blank)
              && Homed(H, hp, blank, buckets, all) && Blank(blank, buckets, all)
              && forall x: Slot :: x.Full? ==> (Holds(blank, buckets, all, x) <==> Holds(buckets, past, pending, x))
    {
      hide Holds, Distinct, Homed, Blank, Home;
      var blank: seq<Bucket> := EmptyBuckets(Power(hp + 1), slots);
      AsideBlank(blank, buckets);
      AsideHomed(H, hp, blank, buckets);
      AsideDistinct(blank, buckets, past);
      AsideHolds(blank, buckets, past);
    }

    // ---------- the operations under the locks ----------

    /** The lock of bucket `b` has been taken, and so migrated. */
    ghost predicate Held(b: int)
      reads this
    {
      0 <= b < |buckets| && |migrated| >= 1 && migrated[b % |migrated|]
    }

    ghost function SlotAt(b: int, s: int): (x: Slot)
      reads this
    {
      if 0 <= b < |buckets| && 0 <= s < |buckets[b]| then buckets[b][s] else Free
    }

    lemma BucketSlots(b: int)
      requires Valid() && 0 <= b < |buckets|
      ensures |buckets[b]| == slots
    {
    }

    /** Takes the locks of two buckets. */
    method LockTwo(i: int, j: int)
      requires Valid() && 0 <= i < |buckets| && 0 <= j < |buckets|
      modifies this`buckets, this`past, this`migrated, this`remaining, this`pending
      ensures Valid() && Held(i) && Held(j) && |buckets| == old(|buckets|)
      ensures |migrated| == old(|migrated|) && migrated == old(migrated)[i % |migrated| := true][j % |migrated| := true]
      ensures forall b :: old(Held(b)) ==> Held(b)
      ensures forall k, v :: Has(k, v) <==> old(Has(k, v))
      ensures Settled() == old(Settled())
    {
      hide Holds, Distinct, NewHomed, Homed, Blank, Sized, Pending, Settle;
      RehashLock(i % |migrated|);
      RehashLock(j % |migrated|);
    }

    /** What a write under the lock of its bucket keeps. */
    lemma WriteKeeps(b: int, s: int, x: Slot)
      requires Valid() && Held(b) && Slotted(buckets, b, s) && (x.Full? ==> Home(H, hp, x.key, b))
      ensures var cur' := Written(buckets, b, s, x);
              && Sized(cur', past, slots) && NewHomed(H, hp, cur')
              && (pending != {} ==> Homed(H, hp - 1, cur', past, pending) && Blank(cur', past, pending))
    {
      hide Distinct, NewHomed, Homed, Blank, Home;
      WriteHomed(H, hp, buckets, b, s, x);
      if pending != {} {
        NoneLeft(migrated);
        WritePastHomed(H, hp - 1, buckets, past, pending, b, s, x);
        WriteBlank(buckets, past, migrated, b, s, x);
      }
    }

    /** Erases the item in a slot. */
    method DelFromBucket(b: int, s: int)
      requires Stands() && Held(b) && SlotAt(b, s).Full?
      modifies this`buckets, this`counters, this`contents
      ensures Stands() && contents == old(contents) - {old(SlotAt(b, s).key)}
      ensures Slotted(old(buckets), b, s) && buckets == Written(old(buckets), b, s, Free)
      ensures var l := b % |migrated|; |counters| == |migrated| && counters == old(counters)[l := old(counters)[l] - 1]
    {
      hide Holds, Distinct, NewHomed, Homed, Blank, Sized, Pending, Power, Sum;
      WriteKeeps(b, s, Free);
      EraseDistinct(buckets, past, pending, b, s);
      EraseHolds(buckets, past, pending, b, s);
      InSlot(b, s);
      OneLessKey(contents, buckets[b][s].key);
      contents := contents - {buckets[b][s].key};
      buckets := buckets[b := buckets[b][s := Free]];
      var l := b % |migrated|;
      SumUpdate(counters, l, counters[l] - 1);
      counters := counters[l := counters[l] - 1];
      assert forall k, v :: Has(k, v) <==> old(Has(k, v)) && k != old(SlotAt(b, s).key);
    }

    /** Adds an item whose key is not in the table to a free slot of one of its buckets. */
    method AddToBucket(b: int, s: int, key: int, value: int)
      requires Stands() && Held(b) && Slotted(buckets, b, s) && SlotAt(b, s) == Free && Home(H, hp, key, b)
               && key !in contents
      modifies this`buckets, this`counters, this`contents
      ensures Stands() && contents == old(contents)[key := value]
      ensures buckets == Written(old(buckets), b, s, Full(key, value))
      ensures var l := b % |migrated|; |counters| == |migrated| && counters == old(counters)[l := old(counters)[l] + 1]
    {
      hide Holds, Distinct, NewHomed, Homed, Blank, Sized, Pending, Home, Power, Sum;
      WriteKeeps(b, s, Full(key, value));
      assert Missing(buckets, past, pending, key) by {
        forall v ensures !Holds(buckets, past, pending, Full(key, v)) {
          assert !Has(key, v);
        }
      }
      AddDistinct(buckets, past, pending, b, s, key, value);
      AddHolds(buckets, past, pending, b, s, Full(key, value));
      buckets := buckets[b := buckets[b][s := Full(key, value)]];
      contents := contents[key := value];
      var l := b % |migrated|;
      SumUpdate(counters, l, counters[l] + 1);
      counters := counters[l := counters[l] + 1];
      assert forall k, v :: Has(k, v) <==> old(Has(k, v)) || (k == key && v == value);
    }

    /** Looks for a key in its two buckets. */
    method CuckooFind(key: int) returns (found: bool, b: int, s: int)
      requires Stands() && Held(First(H, hp, key)) && Held(Second(H, hp, key))
      ensures found <==> key in contents
      ensures found ==> Held(b) && Slotted(buckets, b, s) && SlotAt(b, s) == Full(key, contents[key])
    {
      hide Holds, Distinct, NewHomed, Homed, Blank, Pending, Sized;
      b := First(H, hp, key);
      s := TryRead(buckets[b], key);
      if s != -1 {
        InSlot(b, s);
        return true, b, s;
      }
      b := Second(H, hp, key);
      s := TryRead(buckets[b], key);
      if s != -1 {
        InSlot(b, s);
        return true, b, s;
      }
      NotInBuckets(key);
      return false, 0, 0;
    }

    /** A full slot holds an entry of the map. */
    lemma InSlot(b: int, s: int)
      requires Stands() && Slotted(buckets, b, s) && SlotAt(b, s).Full?
      ensures var x := SlotAt(b, s); x.key in contents && contents[x.key] == x.value
    {
      hide Distinct, NewHomed, Homed, Blank, Pending, Sized;
      var x := SlotAt(b, s);
      assert Shown(buckets, past, pending, New(b, s)) && At(buckets, past, pending, New(b, s)) == x;
      assert Has(x.key, x.value);
    }

    lemma NotInBuckets(key: int)
      requires Stands() && Held(First(H, hp, key)) && Held(Second(H, hp, key))
      requires NoKey(buckets[First(H, hp, key)], key) && NoKey(buckets[Second(H, hp, key)], key)
      ensures key !in contents
    {
      hide Valid, Holds;
      if key in contents {
        assert Has(key, contents[key]);
        ReaderSees(key, contents[key]);
      }
    }

    /** The number of entries. */
    method Size() returns (n: int)
      requires Stands()
      ensures n == |contents|
    {
      n := 0;
      var i := 0;
      while i < |counters|
        invariant 0 <= i <= |counters| && n == Sum(counters[..i])
      {
        assert counters[..i + 1][..i] == counters[..i];
        n := n + counters[i];
        i := i + 1;
      }
      assert counters[..i] == counters;
    }

    /** Looks a key up. */
    method Find(key: int) returns (found: bool, value: int)
      requires Stands()
      modifies this`buckets, this`past, this`migrated, this`remaining, this`pending
      ensures Stands() && (found <==> key in contents) && (found ==> value == contents[key])
    {
      hide Holds, Distinct, NewHomed, Homed, Blank, Pending, Sized, Index, AltIndex, Power, Unmigrated;
      HomesInRange(H, hp, key);
      LockTwo(First(H, hp, key), Second(H, hp, key));
      var b, s;
      found, b, s := CuckooFind(key);
      value := if found then buckets[b][s].value else 0;
    }

    /** Removes a key. */
    method Erase(key: int) returns (found: bool)
      requires Stands()
      modifies this`buckets, this`past, this`migrated, this`remaining, this`pending, this`counters, this`contents
      ensures Stands() && contents == old(contents) - {key} && (found <==> key in old(contents))
    {
      hide Holds, Distinct, NewHomed, Homed, Blank, Pending, Sized, Index, AltIndex, Power, Unmigrated;
      HomesInRange(H, hp, key);
      LockTwo(First(H, hp, key), Second(H, hp, key));
      var b, s;
      found, b, s := CuckooFind(key);
      if found {
        DelFromBucket(b, s);
      }
    }

    // ---------- cuckoo paths ----------

    /**
     One hop of a cuckoo path: the item in slot `fs` of bucket `fb`, if it still has the expected hash, goes to slot
     `ts` of its other bucket, if that is still free.
     */
    method Hop(fb: int, fs: int, tb: int, ts: int, hash: int) returns (ok: bool)
      requires Valid() && Held(fb) && Held(tb) && 0 <= fs < slots && 0 <= ts < slots
      requires tb == AltIndex(hp, H.spread(hash), fb)
      modifies this`buckets
      ensures Valid() && |buckets| == old(|buckets|)
      ensures forall k, v :: Has(k, v) <==> old(Has(k, v))
      ensures ok <==> old(SlotAt(tb, ts).Free? && SlotAt(fb, fs).Full? && H.hash(SlotAt(fb, fs).key) == hash)
      ensures ok ==> SlotAt(fb, fs).Free? && SlotAt(tb, ts) == old(SlotAt(fb, fs))
      ensures !ok ==> buckets == old(buckets) && Settled() == old(Settled())
      ensures ok <==> CanHop(H, old(Settled()), PathStep(fb, fs, hash), PathStep(tb, ts, 0))
      ensures ok ==> Settled() == Hopped(old(Settled()), fb, fs, tb, ts)
    {
      hide Holds, Distinct, NewHomed, Homed, Blank, Power, AltIndex, Sized, Pending, Settle;
      BucketSlots(fb);
      BucketSlots(tb);
      HeldStays(fb);
      HeldStays(tb);
      SettleSlot(H, hp, buckets, past, pending, fb, fs);
      SettleSlot(H, hp, buckets, past, pending, tb, ts);
      SettleHopped(H, hp, buckets, past, pending, fb, fs, tb, ts);
      if buckets[tb][ts].Full? || buckets[fb][fs].Free? || H.hash(buckets[fb][fs].key) != hash {
        return false;
      }
      HopSound(fb, fs, tb, ts);
      var item := buckets[fb][fs];
      buckets := buckets[tb := buckets[tb][ts := item]];
      buckets := buckets[fb := buckets[fb][fs := Free]];
      ok := true;
    }

    /** A bucket under a lock that is held will stay as it is. */
    lemma HeldStays(b: int)
      requires Valid() && Held(b)
      ensures Untouched(past, pending, b) && Settled()[b] == buckets[b]
    {
      hide Bare;
      NoneLeft(migrated);
      MigratedUntouched(past, migrated, b);
    }

    lemma HopSound(fb: int, fs: int, tb: int, ts: int)
      requires Valid() && Held(fb) && Held(tb) && Slotted(buckets, fb, fs) && Slotted(buckets, tb, ts)
      requires buckets[tb][ts] == Free && buckets[fb][fs].Full? && tb == AltIndex(hp, H.mix(buckets[fb][fs].key), fb)
      ensures var cur' := Hopped(buckets, fb, fs, tb, ts);
              && Sized(cur', past, slots) && Distinct(cur', past, pending) && NewHomed(H, hp, cur')
              && (pending != {} ==> Homed(H, hp - 1, cur', past, pending) && Blank(cur', past, pending))
              && forall x: Slot :: x.Full? ==> (Holds(cur', past, pending, x) <==> Holds(buckets, past, pending, x))
    {
      hide Holds, Distinct, Homed, Blank, AltIndex, Home;
      var item := buckets[fb][fs];
      assert Home(H, hp, item.key, fb);
      OtherHome(H, hp, item.key, fb);
      HopKeeps(H, hp, buckets, past, pending, fb, fs, tb, ts);
      if pending != {} {
        NoneLeft(migrated);
        var mid: seq<Bucket> := Written(buckets, tb, ts, item);
        WriteHomed(H, hp, buckets, tb, ts, item);
        WritePastHomed(H, hp - 1, buckets, past, pending, tb, ts, item);
        WritePastHomed(H, hp - 1, mid, past, pending, fb, fs, Free);
        WriteBlank(buckets, past, migrated, tb, ts, item);
        WriteBlank(mid, past, migrated, fb, fs, Free);
      }
    }

    /** Takes the locks for the hop to step `k` of a path, and makes it. */
    method HopTo(path: seq<PathStep>, k: int, i: int, j: int) returns (ok: bool)
      requires Valid() && OnPath(H, hp, slots, i, j, path) && 1 <= k < |path|
      modifies this`buckets, this`past, this`migrated, this`remaining, this`pending
      ensures Valid() && forall x, v :: Has(x, v) <==> old(Has(x, v))
      ensures ok && k == 1 ==> Held(i) && Held(j) && SlotAt(path[0].b, path[0].s).Free?
      ensures ok ==> Shift(H, old(Settled()), path[..k + 1]) == Shift(H, Settled(), path[..k])
      ensures !ok ==> Shift(H, old(Settled()), path[..k + 1]) == Shifted(false, Settled())
    {
      hide Holds, Distinct, NewHomed, Homed, Blank, Power, AltIndex, Sized, Pending, Settle, Hopped, Shift, CanHop;
      var from, to := path[k - 1], path[k];
      if k == 1 {
        LockTwo(i, j);
        LockTwo(to.b, to.b);
      } else {
        LockTwo(from.b, to.b);
      }
      ghost var all := Settled();
      ok := Hop(from.b, from.s, to.b, to.s, from.hash);
      SameHop(all, from, to);
      ShiftStep(H, all, path, k);
    }

    lemma SameHop(cur: seq<Bucket>, from: PathStep, to: PathStep)
      ensures CanHop(H, cur, PathStep(from.b, from.s, from.hash), PathStep(to.b, to.s, 0)) <==>
                CanHop(H, cur, from, to)
    {
    }

    /**
     Moves the items along a path, the last one first, each hop under the locks of its two buckets; the last hop also
     takes the locks of `i` and `j`.  On success the first slot of the path is free and those two locks are held.
     */
    method PathMove(path: seq<PathStep>, i: int, j: int) returns (ok: bool)
      requires Valid() && OnPath(H, hp, slots, i, j, path)
      modifies this`buckets, this`past, this`migrated, this`remaining, this`pending
      ensures Valid() && forall k, v :: Has(k, v) <==> old(Has(k, v))
      ensures ok ==> Held(i) && Held(j) && SlotAt(path[0].b, path[0].s).Free?
      ensures Shifted(ok, Settled()) == Shift(H, old(Settled()), path)
    {
      hide Holds, Distinct, NewHomed, Homed, Blank, Power, AltIndex, Sized, Pending, Settle, Shift, Linked;
      var depth := |path| - 1;
      assert path[..depth + 1] == path;
      if depth == 0 {
        LockTwo(i, j);
        FirstSlot(path, i, j);
        ok := buckets[path[0].b][path[0].s].Free?;
        return;
      }
      while depth > 0
        invariant 0 <= depth < |path| && Valid()
        invariant forall k, v :: Has(k, v) <==> old(Has(k, v))
        invariant depth == 0 ==> Held(i) && Held(j) && SlotAt(path[0].b, path[0].s).Free?
        invariant Shift(H, old(Settled()), path) == Shift(H, Settled(), path[..depth + 1])
      {
        ok := HopTo(path, depth, i, j);
        if !ok {
          return;
        }
        depth := depth - 1;
      }
      FirstSlot(path, i, j);
      ok := true;
    }

    /** What becomes of the moves when only the first slot of the path is left. */
    lemma FirstSlot(path: seq<PathStep>, i: int, j: int)
      requires Valid() && Held(i) && Held(j) && OnPath(H, hp, slots, i, j, path)
      ensures Slotted(buckets, path[0].b, path[0].s)
      ensures Shift(H, Settled(), path[..1]) == Shifted(SlotAt(path[0].b, path[0].s).Free?, Settled())
    {
      SoundHere();
      hide Bare, Settle, Shift, Linked;
      BucketSlots(path[0].b);
      HeldStays(path[0].b);
      ShiftEnd(H, Settled(), path);
      SettledSize();
    }

    lemma SettledSize()
      requires Sound(H)
      ensures |Settled()| == |buckets|
    {
    }

    // ---------- inserting ----------

    /**
     Searches for a path and moves items along it, again and again until a move succeeds or no path is found.  Each of
     the `views` is what one search sees.
     */
    method RunCuckoo(views: seq<View>, i: int, j: int)
      returns (done: bool, b: int, s: int, ghost tables: seq<seq<Bucket>>, ghost paths: seq<seq<PathStep>>)
      requires Valid() && 0 <= i < |buckets| && 0 <= j < |buckets|
      requires forall n :: 0 <= n < |views| ==> Seen(hp, slots, views[n])
      modifies this`buckets, this`past, this`migrated, this`remaining, this`pending
      ensures Valid() && forall k, v :: Has(k, v) <==> old(Has(k, v))
      ensures done ==> Held(i) && Held(j) && (b == i || b == j) && 0 <= s < slots && SlotAt(b, s).Free?
      ensures Tried(H, hp, slots, i, j, views, tables, paths, done)
      ensures tables[0] == old(Settled()) && tables[|paths|] == Settled()
      ensures done ==> var path := paths[|paths| - 1]; path != [] && b == path[0].b && s == path[0].s
    {
      hide Holds, Distinct, NewHomed, Homed, Blank, Power, Sized, Pending, Settle, Shift, FoundBy, Blind, Exhausted,
           Fits, NoRepeat;
      done, b, s, tables, paths := false, 0, 0, [Settled()], [];
      var n := 0;
      while n < |views| && !done
        invariant 0 <= n <= |views| && Valid()
        invariant forall k, v :: Has(k, v) <==> old(Has(k, v))
        invariant done ==> Held(i) && Held(j) && (b == i || b == j) && 0 <= s < slots && SlotAt(b, s).Free?
        invariant |paths| == n && |tables| == n + 1 && tables[0] == old(Settled()) && tables[n] == Settled()
        invariant Attempts(H, hp, slots, i, j, views, tables, paths, done) && (done ==> n > 0)
        invariant done ==> var path := paths[|paths| - 1]; path != [] && b == path[0].b && s == path[0].s
        decreases |views| - n
      {
        var found, path, _ := PathSearch(H, hp, slots, i, j, views[n]);
        if !found {
          return;
        }
        done := PathMove(path, i, j);
        b, s := path[0].b, path[0].s;
        OneMore(H, hp, slots, i, j, views, tables, paths, path, Shifted(done, Settled()));
        tables, paths := tables + [Settled()], paths + [path];
        n := n + 1;
      }
    }

    /**
     Finds the slot of a key, or a free slot for it, moving items along the paths found when both its buckets are full.
     */
    method CuckooInsert(key: int, views: seq<View>) returns (pos: Position)
      requires Stands() && Held(First(H, hp, key)) && Held(Second(H, hp, key))
      requires forall n :: 0 <= n < |views| ==> Seen(hp, slots, views[n])
      modifies this`buckets, this`past, this`migrated, this`remaining, this`pending
      ensures Stands() && (pos.Duplicated? <==> key in contents)
      ensures pos.Duplicated? ==> Slotted(buckets, pos.b, pos.s) && SlotAt(pos.b, pos.s) == Full(key, contents[key])
      ensures pos.Vacant? ==>
                Held(pos.b) && Slotted(buckets, pos.b, pos.s) && SlotAt(pos.b, pos.s) == Free && Home(H, hp, key, pos.b)
      ensures pos.TableFull? ==> NoPlace(H, hp, slots, key, views, old(Settled()), Settled())
      ensures pos.Vacant? ==> Choice(old(Settled()), First(H, hp, key), Second(H, hp, key), pos.b, pos.s)
      ensures views != [] && Still(views[0], old(Settled())) && CodesFit(slots) ==>
                (pos.TableFull? <==>
                   key !in contents
                   && Exhausted(H, hp, slots, old(Settled()), First(H, hp, key), Second(H, hp, key)))
    {
      hide Holds, Distinct, NewHomed, Homed, Blank, Power, Pending, Sized, Index, AltIndex, Unmigrated, Settle, Tried,
           Still, CodesFit, Exhausted;
      var i, j := First(H, hp, key), Second(H, hp, key);
      ghost var all := Settled();
      HeldStays(i);
      HeldStays(j);
      BucketSlots(i);
      BucketSlots(j);
      var absent, s1 := TryFindInsert(buckets[i], key);
      if !absent {
        InSlot(i, s1);
        return Duplicated(i, s1);
      }
      var s2;
      absent, s2 := TryFindInsert(buckets[j], key);
      if !absent {
        InSlot(j, s2);
        return Duplicated(j, s2);
      }
      NotInBuckets(key);
      if s1 != -1 {
        FreeInReach(H, hp, slots, all, i, j, i, s1);
        return Vacant(i, s1);
      }
      if s2 != -1 {
        FreeInReach(H, hp, slots, all, i, j, j, s2);
        return Vacant(j, s2);
      }
      var done, b, s, tables, paths := RunCuckoo(views, i, j);
      if views != [] && Still(views[0], all) && CodesFit(slots) {
        StillDecides(H, hp, slots, i, j, views, tables, paths, done);
      }
      if !done {
        return TableFull;
      }
      pos := FinishInsert(key, b, s);
    }

    /** The second look at the two buckets, whatever has been inserted since the first one. */
    method FinishInsert(key: int, b: int, s: int) returns (pos: Position)
      requires Stands() && Held(First(H, hp, key)) && Held(Second(H, hp, key))
      requires Home(H, hp, key, b) && 0 <= s < slots && SlotAt(b, s).Free?
      ensures if key in contents then pos.Duplicated? else pos == Vacant(b, s)
      ensures pos.Duplicated? ==> Slotted(buckets, pos.b, pos.s) && SlotAt(pos.b, pos.s) == Full(key, contents[key])
      ensures Held(b) && Slotted(buckets, b, s)
    {
      hide Holds, Distinct, NewHomed, Homed, Blank, Pending, Index, AltIndex;
      BucketSlots(b);
      var found, b', s' := CuckooFind(key);
      pos := if found then Duplicated(b', s') else Vacant(b, s);
    }

    /** One round of an insertion: the value of the key, or `start` for a new key, unless there is no place for it. */
    method UpgetOnce(key: int, start: int, views: seq<View>) returns (found: bool, value: int)
      requires Stands() && forall n :: 0 <= n < |views| ==> Seen(hp, slots, views[n])
      modifies this`buckets, this`past, this`migrated, this`remaining, this`pending, this`counters, this`contents
      ensures Stands() && (key in old(contents) ==> found)
      ensures contents == if found && key !in old(contents) then old(contents)[key := start] else old(contents)
      ensures if found then key in contents && value == contents[key] else key !in contents
      ensures !found ==> NoPlace(H, hp, slots, key, views, old(Settled()), Settled())
      ensures views != [] && Still(views[0], old(Settled())) && CodesFit(slots) ==>
                (found <==>
                   key in old(contents)
                   || !Exhausted(H, hp, slots, old(Settled()), First(H, hp, key), Second(H, hp, key)))
    {
      hide Holds, Distinct, NewHomed, Homed, Blank, Power, Pending, Sized, Index, AltIndex, Home, Unmigrated, Sum,
           Settle, Still, CodesFit, Exhausted, NoPlace;
      HomesInRange(H, hp, key);
      LockTwo(First(H, hp, key), Second(H, hp, key));
      var pos := CuckooInsert(key, views);
      match pos {
        case Duplicated(b, s) =>
          return true, buckets[b][s].value;
        case Vacant(b, s) =>
          AddToBucket(b, s, key, start);
          return true, start;
        case TableFull =>
          return false, 0;
      }
    }

    /**
     Gives the value of a key, adding the key with the value `start` if it is not there.  A full table is doubled and
     the insertion tried again: `rounds` are what the searches of each round see, and `tables` the settled buckets at
     the start of each round.
     */
    method Upget(key: int, start: int, rounds: seq<seq<View>>)
      returns (found: bool, value: int, ghost tables: seq<seq<Bucket>>)
      requires Stands() && |rounds| >= 1
      requires forall r, n :: 0 <= r < |rounds| && 0 <= n < |rounds[r]| ==> Seen(hp + r, slots, rounds[r][n])
      modifies this
      ensures Stands() && old(hp) <= hp <= old(hp) + |rounds| && (found <==> hp < old(hp) + |rounds|)
      ensures contents == if found && key !in old(contents) then old(contents)[key := start] else old(contents)
      ensures if found then key in contents && value == contents[key] else key !in contents
      ensures |tables| == hp - old(hp) + 1 && tables[0] == old(Settled())
      ensures forall r {:trigger tables[r]} :: 0 <= r < hp - old(hp) ==>
                RoundLost(H, old(hp) + r, slots, key, rounds[r], tables[r], tables[r + 1])
      ensures key in old(contents) ==> found && hp == old(hp)
      ensures !old(Crowded(Settled(), First(H, hp, key)) && Crowded(Settled(), Second(H, hp, key))) ==>
                found && hp == old(hp)
    {
      hide Holds, Distinct, NewHomed, Homed, Blank, Power, Pending, Sized, Index, AltIndex, Home, Unmigrated, Sum,
           Settle, Still, CodesFit, Exhausted, Doubled, Crowded, NoPlace, RoundLost;
      tables := [Settled()];
      var r := 0;
      while r < |rounds|
        invariant 0 <= r <= |rounds| && Stands() && hp == old(hp) + r && contents == old(contents)
        invariant r > 0 ==> key !in contents
        invariant r > 0 ==> old(Crowded(Settled(), First(H, hp, key)) && Crowded(Settled(), Second(H, hp, key)))
        invariant |tables| == r + 1 && tables[0] == old(Settled()) && tables[r] == Settled()
        invariant forall k {:trigger tables[k]} :: 0 <= k < r ==>
                    RoundLost(H, old(hp) + k, slots, key, rounds[k], tables[k], tables[k + 1])
      {
        found, value := UpgetOnce(key, start, rounds[r]);
        if found {
          return;
        }
        NowLost(H, hp, slots, key, rounds[r], tables[r], Settled());
        LostCrowded(H, hp, slots, key, rounds[r], tables[r], Doubled(H, hp, Settled()));
        FastDouble();
        tables := tables + [Settled()];
        r := r + 1;
      }
      return false, 0, tables;
    }
  }

  function EmptyBuckets(n: nat, slots: nat): (r: seq<Bucket>)
    ensures |r| == n && forall b :: 0 <= b < n ==> |r[b]| == slots && Empty(r[b])
  {
    seq(n, _ => seq(slots, _ => Free))
  }

  // ---------- counting ----------

  function Sum(s: seq<int>): (n: int) {
    if s == [] then 0 else Sum(s[..|s| - 1]) + s[|s| - 1]
  }

  lemma {:induction false} SumUpdate(s: seq<int>, i: int, x: int)
    requires 0 <= i < |s|
    ensures Sum(s[i := x]) == Sum(s) - s[i] + x
  {
    var k := |s| - 1;
    if i < k {
      SumUpdate(s[..k], i, x);
      assert s[i := x][..k] == s[..k][i := x];
    } else {
      assert s[i := x][..k] == s[..k];
    }
  }

  lemma {:induction false} SumZeros(s: seq<int>, n: nat)
    ensures Sum(s + seq(n, _ => 0)) == Sum(s)
  {
    var all := s + seq(n, _ => 0);
    if n == 0 {
      assert all == s;
    } else {
      SumZeros(s, n - 1);
      assert all[..|all| - 1] == s + seq(n - 1, _ => 0);
    }
  }

  lemma OneLessKey(m: map<int, int>, key: int)
    requires key in m
    ensures |m - {key}| == |m| - 1
  {
    assert m.Keys == (m - {key}).Keys + {key};
    assert |m.Keys| == |m| && |(m - {key}).Keys| == |m - {key}|;
  }

  /** Where an insertion ends: a free slot, the slot of the same key, or nowhere. */
  datatype Position = Vacant(b: int, s: int) | Duplicated(b: int, s: int) | TableFull

  ghost predicate NoKey(bucket: Bucket, key: int) {
    forall s :: 0 <= s < |bucket| ==> bucket[s].Free? || bucket[s].key != key
  }

  /** The slot of a key in a bucket, or -1. */
  method TryRead(bucket: Bucket, key: int) returns (slot: int)
    ensures slot == -1 <==> NoKey(bucket, key)
    ensures slot != -1 ==> 0 <= slot < |bucket| && bucket[slot].Full? && bucket[slot].key == key
  {
    slot := 0;
    while slot < |bucket|
      invariant 0 <= slot <= |bucket| && NoKey(bucket[..slot], key)
    {
      if bucket[slot].Full? && bucket[slot].key == key {
        return;
      }
      slot := slot + 1;
    }
    slot := -1;
  }

  /** The slot of a key in a bucket; if it is not there, the last free slot, or -1. */
  method TryFindInsert(bucket: Bucket, key: int) returns (absent: bool, slot: int)
    ensures absent <==> NoKey(bucket, key)
    ensures !absent ==> 0 <= slot < |bucket| && bucket[slot].Full? && bucket[slot].key == key
    ensures absent && slot == -1 ==> forall s :: 0 <= s < |bucket| ==> bucket[s].Full?
    ensures absent && slot != -1 ==>
              0 <= slot < |bucket| && bucket[slot] == Free && forall s :: slot < s < |bucket| ==> bucket[s].Full?
  {
    slot := -1;
    var i := 0;
    while i < |bucket|
      invariant 0 <= i <= |bucket| && NoKey(bucket[..i], key) && -1 <= slot < i
      invariant slot != -1 ==> bucket[slot] == Free
      invariant forall s :: slot < s < i ==> bucket[s].Full?
    {
      if bucket[i].Full? {
        if bucket[i].key == key {
          return false, i;
        }
      } else {
        slot := i;
      }
      i := i + 1;
    }
    absent := true;
  }
}
