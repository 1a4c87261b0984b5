/**
 Doubling the concurrent cuckoo hash table, with lazy migration.

 A doubled table has two bucket arrays: the new one, twice as long, and the old one.  Each lock stands for the buckets
 whose number leaves the lock's number as remainder.  Whoever takes a lock first moves the old buckets of that lock into
 the new array.  What the table holds is what the new array holds, together with the old buckets under locks that have
 not been migrated yet.
 */
module CuckooBuckets {
  import Cards
  import opened Division

  // ---------- the two buckets of a key ----------

  /** Bitwise exclusive or. */
  function Xor(a: int, b: int): (r: int)
    requires 0 <= a && 0 <= b
    ensures 0 <= r
    decreases a + b
  {
    if a == 0 && b == 0 then 0 else (a % 2 + b % 2) % 2 + 2 * Xor(a / 2, b / 2)
  }

  function Index(hp: nat, hash: int): (i: int)
    requires 0 <= hash
    ensures 0 <= i < Power(hp)
  {
    hash % Power(hp)
  }

  /** The other bucket of a key; `mix` is the multiple of the multiplier that its partial key selects. */
  function AltIndex(hp: nat, mix: int, i: int): (j: int)
    requires 0 <= mix && 0 <= i
    ensures 0 <= j < Power(hp)
  {
    Xor(i, mix) % Power(hp)
  }

  lemma ModHalf(a: int, p: int)
    requires 0 <= a && 1 <= p
    ensures a % (2 * p) == a % 2 + 2 * ((a / 2) % p)
  {
    var q := a / 2;
    assert a == 2 * q + a % 2;
    assert q == p * (q / p) + q % p;
    assert a == (2 * p) * (q / p) + (2 * (q % p) + a % 2);
    ModUnique(a, 2 * p, q / p, 2 * (q % p) + a % 2);
  }

  /** The low bits of an exclusive or depend on low bits only. */
  lemma {:induction false} XorLow(a: int, b: int, k: nat)
    requires 0 <= a && 0 <= b
    ensures Xor(a % Power(k), b) % Power(k) == Xor(a, b) % Power(k)
  {
    if k > 0 {
      var p := Power(k - 1);
      XorLow(a / 2, b / 2, k - 1);
      ModHalf(a, p);
      var x, y := a % Power(k), Xor(a, b);
      assert x % 2 == a % 2 && x / 2 == (a / 2) % p;
      XorBits(a, b);
      XorBits(x, b);
      ModHalf(Xor(x, b), p);
      ModHalf(y, p);
    }
  }

  lemma XorBits(a: int, b: int)
    requires 0 <= a && 0 <= b
    ensures Xor(a, b) % 2 == (a % 2 + b % 2) % 2 && Xor(a, b) / 2 == Xor(a / 2, b / 2)
  {
    var bit, rest := (a % 2 + b % 2) % 2, Xor(a / 2, b / 2);
    assert Xor(a, b) == bit + 2 * rest;
    hide Xor;
    BitSplit(bit, rest);
  }

  lemma BitSplit(bit: int, rest: int)
    requires 0 <= bit < 2
    ensures (bit + 2 * rest) % 2 == bit && (bit + 2 * rest) / 2 == rest
  {
  }

  lemma {:induction false} XorTwice(a: int, b: int)
    requires 0 <= a && 0 <= b
    ensures Xor(Xor(a, b), b) == a
    decreases a + b
  {
    hide Xor;
    if a == 0 && b == 0 {
      XorZero();
    } else {
      XorTwice(a / 2, b / 2);
      XorBits(a, b);
      XorBits(Xor(a, b), b);
      Halves(Xor(Xor(a, b), b), a);
    }
  }

  lemma XorZero()
    ensures Xor(0, 0) == 0
  {
  }

  lemma Halves(x: int, y: int)
    requires x % 2 == y % 2 && x / 2 == y / 2
    ensures x == y
  {
  }

  /** Going to the other bucket twice leads back. */
  lemma AltAlt(hp: nat, mix: int, i: int)
    requires 0 <= mix && 0 <= i < Power(hp)
    ensures AltIndex(hp, mix, AltIndex(hp, mix, i)) == i
  {
    XorLow(Xor(i, mix), mix, hp);
    XorTwice(i, mix);
    ModUnique(i, Power(hp), 0, i);
  }

  /** Doubling adds one bit at the top of either bucket number. */
  lemma Doubling(hp: nat, hash: int, mix: int)
    requires 0 <= hash && 0 <= mix
    ensures var p, i, i' := Power(hp), Index(hp, hash), Index(hp + 1, hash);
            && (i' == i || i' == i + p)
            && var j, j' := AltIndex(hp, mix, i), AltIndex(hp + 1, mix, i'); j' == j || j' == j + p
  {
    var p := Power(hp);
    TopBit(hash, p);
    XorLow(hash, mix, hp);
    XorLow(hash, mix, hp + 1);
    TopBit(Xor(hash, mix), p);
  }

  lemma TopBit(a: int, p: int)
    requires 0 <= a && 1 <= p
    ensures a % (2 * p) == a % p || a % (2 * p) == a % p + p
  {
    var q, r := a / (2 * p), a % (2 * p);
    assert a == (2 * p) * q + r;
    if r < p {
      assert a == p * (2 * q) + r;
      ModUnique(a, p, 2 * q, r);
    } else {
      assert a == p * (2 * q + 1) + (r - p);
      ModUnique(a, p, 2 * q + 1, r - p);
    }
  }

  // ---------- the table ----------

  datatype Slot = Free | Full(key: int, value: int)
  type Bucket = seq<Slot>

  /** The hash of a key, and the multiple of the multiplier that the partial key of a hash selects. */
  datatype Hasher = Hasher(hash: int -> int, spread: int -> int) {
    function mix(key: int): (m: int) {
      spread(hash(key))
    }
  }

  ghost predicate Sound(H: Hasher) {
    (forall k :: 0 <= H.hash(k)) && forall h :: 0 <= H.spread(h)
  }

  function First(H: Hasher, hp: nat, key: int): (b: int)
    requires 0 <= H.hash(key)
  {
    Index(hp, H.hash(key))
  }

  function Second(H: Hasher, hp: nat, key: int): (b: int)
    requires 0 <= H.hash(key) && 0 <= H.mix(key)
  {
    AltIndex(hp, H.mix(key), First(H, hp, key))
  }

  ghost predicate Home(H: Hasher, hp: nat, key: int, b: int)
    requires Sound(H)
  {
    b == First(H, hp, key) || b == Second(H, hp, key)
  }

  /** A key in bucket `b` of the old array goes to the upper of the two new buckets. */
  predicate GoesUp(H: Hasher, hp: nat, key: int, b: int)
    requires 0 <= H.hash(key) && 0 <= H.mix(key)
  {
    var up := b + Power(hp);
    (b == First(H, hp, key) && First(H, hp + 1, key) == up) || (b == Second(H, hp, key) && Second(H, hp + 1, key) == up)
  }

  /** Wherever it goes, a key lands in one of its two buckets. */
  lemma LandsHome(H: Hasher, hp: nat, key: int, b: int)
    requires Sound(H) && Home(H, hp, key, b)
    ensures Home(H, hp + 1, key, if GoesUp(H, hp, key, b) then b + Power(hp) else b)
  {
    Doubling(hp, H.hash(key), H.mix(key));
  }

  /** What stays in the lower bucket: the keys that do not go up, in their slots. */
  ghost function Low(H: Hasher, hp: nat, bucket: Bucket, b: int): (r: Bucket)
    requires Sound(H)
    ensures |r| == |bucket|
    ensures forall s :: 0 <= s < |bucket| ==>
              r[s] == if bucket[s].Full? && !GoesUp(H, hp, bucket[s].key, b) then bucket[s] else Free
  {
    seq(|bucket|, s requires 0 <= s < |bucket| => if bucket[s].Full?
        && !GoesUp(H, hp, bucket[s].key, b) then bucket[s] else Free)
  }

  /** The slots, among the first `n`, whose keys go up. */
  ghost function Ups(H: Hasher, hp: nat, bucket: Bucket, b: int, n: int): (r: seq<int>)
    requires Sound(H) && 0 <= n <= |bucket|
    ensures |r| <= n
    ensures (forall i :: 0 <= i < |r| ==> 0 <= r[i] < n && bucket[r[i]].Full? && GoesUp(H, hp, bucket[r[i]].key, b))
    ensures forall i, j :: 0 <= i < j < |r| ==> r[i] < r[j]
    ensures forall s :: 0 <= s < n && bucket[s].Full? && GoesUp(H, hp, bucket[s].key, b) ==> s in r
  {
    if n == 0 then [] else
      Ups(H, hp, bucket, b, n - 1) + if bucket[n - 1].Full? && GoesUp(H, hp, bucket[n - 1].key, b) then [n - 1] else []
  }

  /** The upper bucket: the keys that go up, from the first slot on. */
  ghost function High(H: Hasher, hp: nat, bucket: Bucket, b: int): (r: Bucket)
    requires Sound(H)
    ensures |r| == |bucket|
    ensures var ups := Ups(H, hp, bucket, b, |bucket|);
            forall s :: 0 <= s < |bucket| ==> r[s] == if s < |ups| then bucket[ups[s]] else Free
  {
    var ups := Ups(H, hp, bucket, b, |bucket|);
    seq(|bucket|, s requires 0 <= s < |bucket| => if s < |ups| then bucket[ups[s]] else Free)
  }

  // ---------- what the table holds ----------

  datatype Place = New(b: int, s: int) | Old(b: int, s: int)

  /** The old buckets `pending` have not been moved. */
  ghost predicate Shown(cur: seq<Bucket>, past: seq<Bucket>, pending: set<int>, pl: Place) {
    match pl
    case New(b, s) => 0 <= b < |cur| && 0 <= s < |cur[b]|
    case Old(b, s) => b in pending && 0 <= b < |past| && 0 <= s < |past[b]|
  }

  ghost function At(cur: seq<Bucket>, past: seq<Bucket>, pending: set<int>, pl: Place): (x: Slot)
    requires Shown(cur, past, pending, pl)
  {
    match pl
    case New(b, s) => cur[b][s]
    case Old(b, s) => past[b][s]
  }

  ghost predicate Holds(cur: seq<Bucket>, past: seq<Bucket>, pending: set<int>, x: Slot) {
    exists pl :: Shown(cur, past, pending, pl) && At(cur, past, pending, pl) == x
  }

  /** No key is there twice. */
  ghost predicate Distinct(cur: seq<Bucket>, past: seq<Bucket>, pending: set<int>) {
    forall p, q {:trigger Shown(cur, past, pending, p), Shown(cur, past, pending, q)} ::
             Shown(cur, past, pending, p) && Shown(cur, past, pending, q) ==>
      var x, y := At(cur, past, pending, p), At(cur, past, pending, q);
      (x.Full? && y.Full? && x.key == y.key ==> p == q)
  }

  /** Every key is in one of its two buckets. */
  ghost predicate Homed(H: Hasher, hp: nat, cur: seq<Bucket>, past: seq<Bucket>, pending: set<int>)
    requires Sound(H)
  {
    forall p {:trigger Shown(cur, past, pending, p)} ::
             Shown(cur, past, pending, p) && At(cur, past, pending, p).Full? ==>
      match p
      case New(b, _) => Home(H, hp + 1, At(cur, past, pending, p).key, b)
      case Old(b, _) => Home(H, hp, At(cur, past, pending, p).key, b)
  }

  ghost predicate Empty(bucket: Bucket) {
    forall s :: 0 <= s < |bucket| ==> bucket[s] == Free
  }

  /** The buckets that pending ones will move to are empty. */
  ghost predicate Blank(cur: seq<Bucket>, past: seq<Bucket>, pending: set<int>) {
    forall b :: b in pending ==> (0 <= b < |past| && |cur| == 2 * |past| && Empty(cur[b]) && Empty(cur[b + |past|]))
  }

  ghost predicate Sized(cur: seq<Bucket>, past: seq<Bucket>, slots: int) {
    && (forall b :: 0 <= b < |cur| ==> |cur[b]| == slots)
    && (forall b :: 0 <= b < |past| ==> |past[b]| == slots)
  }

  /** Where a slot of the new state comes from, when bucket `b` has been moved. */
  ghost function Back(H: Hasher, hp: nat, past: seq<Bucket>, b: int, pl: Place): (q: Place)
    requires Sound(H) && 0 <= b < |past|
  {
    match pl
    case Old(_, _) => pl
    case New(c, s) =>
      if c == b then Old(b, s)
      else if c == b + |past| then
        var ups := Ups(H, hp, past[b], b, |past[b]|);
        Old(b, if 0 <= s < |ups| then ups[s] else 0)
      else pl
  }

  /** The new array once old bucket `b` has been moved. */
  ghost function Moved(H: Hasher, hp: nat, cur: seq<Bucket>, past: seq<Bucket>, b: int): (r: seq<Bucket>)
    requires Sound(H) && 0 <= b < |past| && |cur| == 2 * |past|
    ensures |r| == |cur| && r[b] == Low(H, hp, past[b], b) && r[b + |past|] == High(H, hp, past[b], b)
    ensures forall c :: 0 <= c < |cur| && c != b && c != b + |past| ==> r[c] == cur[c]
  {
    cur[b := Low(H, hp, past[b], b)][b + |past| := High(H, hp, past[b], b)]
  }

  /** A full slot of the new state comes from a slot with the same content. */
  lemma ComesBack(H: Hasher, hp: nat, cur: seq<Bucket>, past: seq<Bucket>, pending: set<int>, slots: int, b: int,
                  pl: Place)
    requires Sound(H) && b in pending && 0 <= b < |past| && |cur| == 2 * |past| && Sized(cur, past, slots)
    requires var cur' := Moved(H, hp, cur, past, b);
             Shown(cur', past, pending - {b}, pl) && At(cur', past, pending - {b}, pl).Full?
    ensures var cur', q := Moved(H, hp, cur, past, b), Back(H, hp, past, b, pl);
            Shown(cur, past, pending, q) && At(cur, past, pending, q) == At(cur', past, pending - {b}, pl)
  {
    hide Ups, GoesUp;
  }

  /** And different full slots come from different ones. */
  lemma BackInjective(H: Hasher, hp: nat, cur: seq<Bucket>, past: seq<Bucket>, pending: set<int>, slots: int, b: int,
                      p: Place, q: Place)
    requires Sound(H) && b in pending && 0 <= b < |past| && |cur| == 2 * |past| && Sized(cur, past, slots)
    requires var cur' := Moved(H, hp, cur, past, b);
             && Shown(cur', past, pending - {b}, p) && At(cur', past, pending - {b}, p).Full?
             && Shown(cur', past, pending - {b}, q) && At(cur', past, pending - {b}, q).Full?
    requires Back(H, hp, past, b, p) == Back(H, hp, past, b, q)
    ensures p == q
  {
    var ups := Ups(H, hp, past[b], b, |past[b]|);
    hide Ups, GoesUp;
  }

  /** Every full slot of the state before the move is still there. */
  lemma GoesOn(H: Hasher, hp: nat, cur: seq<Bucket>, past: seq<Bucket>, pending: set<int>, slots: int, b: int,
               pl: Place)
    returns (q: Place)
    requires Sound(H) && b in pending && 0 <= b < |past| && |cur| == 2 * |past| && Sized(cur, past, slots)
             && Blank(cur, past, pending)
    requires Shown(cur, past, pending, pl) && At(cur, past, pending, pl).Full?
    ensures var cur' := Moved(H, hp, cur, past, b);
            Shown(cur', past, pending - {b}, q) && At(cur', past, pending - {b}, q) == At(cur, past, pending, pl)
  {
    var ups := Ups(H, hp, past[b], b, |past[b]|);
    hide Ups, GoesUp;
    match pl {
      case New(c, s) =>
        assert Empty(cur[b]) && Empty(cur[b + |past|]);
        q := pl;
      case Old(c, s) =>
        if c != b {
          q := pl;
        } else if GoesUp(H, hp, past[b][s].key, b) {
          var i :| 0 <= i < |ups| && ups[i] == s;
          q := New(b + |past|, i);
        } else {
          q := New(b, s);
        }
    }
  }

  /** Moving one bucket changes nothing of what the table holds, and keeps every key single and at home. */
  lemma MoveOne(H: Hasher, hp: nat, cur: seq<Bucket>, past: seq<Bucket>, pending: set<int>, slots: int, b: int)
    requires Sound(H) && b in pending && |past| == Power(hp) && Sized(cur, past, slots)
    requires Blank(cur, past, pending) && Distinct(cur, past, pending) && Homed(H, hp, cur, past, pending)
    ensures 0 <= b < |past| && |cur| == 2 * |past|
    ensures var cur' := Moved(H, hp, cur, past, b);
            && Sized(cur', past, slots) && Blank(cur', past, pending - {b})
            && Distinct(cur', past, pending - {b}) && Homed(H, hp, cur', past, pending - {b})
            && forall x: Slot :: x.Full? ==> (Holds(cur', past, pending - {b}, x) <==> Holds(cur, past, pending, x))
  {
    hide Ups, GoesUp, Low, High, Back;
    var cur', pending' := Moved(H, hp, cur, past, b), pending - {b};
    MoveDistinct(H, hp, cur, past, pending, slots, b);
    MoveHomed(H, hp, cur, past, pending, slots, b);
    forall x: Slot | x.Full? ensures Holds(cur', past, pending', x) <==> Holds(cur, past, pending, x) {
      if Holds(cur', past, pending', x) {
        var pl :| Shown(cur', past, pending', pl) && At(cur', past, pending', pl) == x;
        ComesBack(H, hp, cur, past, pending, slots, b, pl);
      }
      if Holds(cur, past, pending, x) {
        var pl :| Shown(cur, past, pending, pl) && At(cur, past, pending, pl) == x;
        var q := GoesOn(H, hp, cur, past, pending, slots, b, pl);
      }
    }
  }

  lemma MoveDistinct(H: Hasher, hp: nat, cur: seq<Bucket>, past: seq<Bucket>, pending: set<int>, slots: int, b: int)
    requires Sound(H) && b in pending && 0 <= b < |past| && |cur| == 2 * |past| && Sized(cur, past, slots)
             && Distinct(cur, past, pending)
    ensures Distinct(Moved(H, hp, cur, past, b), past, pending - {b})
  {
    hide Ups, GoesUp, Low, High, Back, Moved;
    var cur', pending' := Moved(H, hp, cur, past, b), pending - {b};
    forall p, q | Shown(cur', past, pending', p) && Shown(cur', past, pending', q)
      ensures var x, y := At(cur', past, pending', p), At(cur', past, pending', q);
              (x.Full? && y.Full? && x.key == y.key ==> p == q)
    {
      var x, y := At(cur', past, pending', p), At(cur', past, pending', q);
      if x.Full? && y.Full? && x.key == y.key {
        ComesBack(H, hp, cur, past, pending, slots, b, p);
        ComesBack(H, hp, cur, past, pending, slots, b, q);
        BackInjective(H, hp, cur, past, pending, slots, b, p, q);
      }
    }
  }

  lemma MoveHomed(H: Hasher, hp: nat, cur: seq<Bucket>, past: seq<Bucket>, pending: set<int>, slots: int, b: int)
    requires Sound(H) && b in pending && 0 <= b < |past| == Power(hp) && |cur| == 2 * |past|
             && Sized(cur, past, slots) && Homed(H, hp, cur, past, pending)
    ensures Homed(H, hp, Moved(H, hp, cur, past, b), past, pending - {b})
  {
    var cur', pending' := Moved(H, hp, cur, past, b), pending - {b};
    forall p | Shown(cur', past, pending', p) && At(cur', past, pending', p).Full?
      ensures match p
              case New(c, _) => Home(H, hp + 1, At(cur', past, pending', p).key, c)
              case Old(c, _) => Home(H, hp, At(cur', past, pending', p).key, c)
    {
      MoveHomedAt(H, hp, cur, past, pending, slots, b, p);
    }
  }

  lemma MoveHomedAt(H: Hasher, hp: nat, cur: seq<Bucket>, past: seq<Bucket>, pending: set<int>, slots: int, b: int,
                    p: Place)
    requires Sound(H) && b in pending && 0 <= b < |past| == Power(hp) && |cur| == 2 * |past|
             && Sized(cur, past, slots) && Homed(H, hp, cur, past, pending)
    requires var cur' := Moved(H, hp, cur, past, b);
             Shown(cur', past, pending - {b}, p) && At(cur', past, pending - {b}, p).Full?
    ensures var key := At(Moved(H, hp, cur, past, b), past, pending - {b}, p).key;
            match p case New(c, _) => Home(H, hp + 1, key, c) case Old(c, _) => Home(H, hp, key, c)
  {
    hide Home, GoesUp, Power;
    var key := At(Moved(H, hp, cur, past, b), past, pending - {b}, p).key;
    ComesBack(H, hp, cur, past, pending, slots, b, p);
    var q := Back(H, hp, past, b, p);
    assert Shown(cur, past, pending, q);
    if p.New? && (p.b == b || p.b == b + |past|) {
      LandsHome(H, hp, key, b);
    }
  }

  // ---------- locks and buckets ----------

  lemma ModPlus(a: int, d: int)
    requires 0 <= a && 1 <= d
    ensures (a + d) % d == a % d
  {
    ModUnique(a + d, d, a / d + 1, a % d);
  }

  lemma ModGap(a: int, b: int, d: int)
    requires 0 <= a <= b < a + d && 1 <= d && a % d == b % d
    ensures a == b
  {
    var q, q' := a / d, b / d;
    assert a == d * q + a % d && b == d * q' + b % d;
    if q' > q {
      AtLeast(d, q', q);
    } else if q' < q {
      AtLeast(d, q, q');
    }
  }

  /** A power of two divides every greater one. */
  lemma {:induction false} PowerDivides(k: nat, n: nat)
    requires k <= n
    ensures Power(n) % Power(k) == 0 && Power(n) >= Power(k)
  {
    if k == n {
      ModUnique(Power(n), Power(k), 1, 0);
    } else {
      PowerDivides(k, n - 1);
      var q := Power(n - 1) / Power(k);
      assert Power(n - 1) == Power(k) * q;
      ModUnique(Power(n), Power(k), 2 * q, 0);
    }
  }

  /** Buckets that differ by a multiple of the number of locks have the same lock. */
  lemma SameLock(b: int, p: int, d: int)
    requires 0 <= b && 0 <= p && 1 <= d && p % d == 0
    ensures (b + p) % d == b % d
  {
    var q := p / d;
    assert p == d * q;
    assert b == d * (b / d) + b % d;
    ModUnique(b + p, d, b / d + q, b % d);
  }

  ghost function Unmigrated(migrated: seq<bool>): (n: nat) {
    if migrated == [] then 0 else Unmigrated(migrated[..|migrated| - 1]) + if migrated[|migrated| - 1] then 0 else 1
  }

  lemma {:induction false} OneLess(migrated: seq<bool>, l: int)
    requires 0 <= l < |migrated| && !migrated[l]
    ensures Unmigrated(migrated[l := true]) == Unmigrated(migrated) - 1
  {
    var n := |migrated| - 1;
    if l < n {
      OneLess(migrated[..n], l);
      assert migrated[l := true][..n] == migrated[..n][l := true];
    } else {
      assert migrated[l := true][..n] == migrated[..n];
    }
  }

  lemma {:induction false} NoneLeft(migrated: seq<bool>)
    ensures Unmigrated(migrated) == 0 <==> forall l :: 0 <= l < |migrated| ==> migrated[l]
  {
    if migrated != [] {
      NoneLeft(migrated[..|migrated| - 1]);
    }
  }

  lemma {:induction false} AllLeft(migrated: seq<bool>)
    requires forall l :: 0 <= l < |migrated| ==> !migrated[l]
    ensures Unmigrated(migrated) == |migrated|
  {
    if migrated != [] {
      AllLeft(migrated[..|migrated| - 1]);
    }
  }

  ghost predicate NewHomed(H: Hasher, hp: nat, cur: seq<Bucket>)
    requires Sound(H)
  {
    forall b, s {:trigger cur[b][s]} :: 0 <= b < |cur| && 0 <= s < |cur[b]| && cur[b][s].Full? ==>
             Home(H, hp, cur[b][s].key, b)
  }

  /** The old buckets whose lock has not been migrated. */
  ghost function Pending(past: seq<Bucket>, migrated: seq<bool>): (r: set<int>)
    requires |migrated| >= 1
  {
    set b | 0 <= b < |past| && !migrated[b % |migrated|]
  }

  /** The lower bucket once the first `n` slots have been seen. */
  ghost function LowSoFar(H: Hasher, hp: nat, bucket: Bucket, b: int, n: int): (r: Bucket)
    requires Sound(H) && 0 <= n <= |bucket|
    ensures |r| == |bucket|
    ensures forall i :: 0 <= i < |bucket| ==>
              r[i] == if i < n && bucket[i].Full? && !GoesUp(H, hp, bucket[i].key, b) then bucket[i] else Free
  {
    seq(|bucket|, i requires 0 <= i < |bucket| => if i < n && bucket[i].Full?
        && !GoesUp(H, hp, bucket[i].key, b) then bucket[i] else Free)
  }

  /** The upper bucket once the first `n` slots have been seen. */
  ghost function HighSoFar(H: Hasher, hp: nat, bucket: Bucket, b: int, n: int): (r: Bucket)
    requires Sound(H) && 0 <= n <= |bucket|
    ensures |r| == |bucket|
    ensures var ups := Ups(H, hp, bucket, b, n);
            forall i :: 0 <= i < |bucket| ==> r[i] == if i < |ups| then bucket[ups[i]] else Free
  {
    var ups := Ups(H, hp, bucket, b, n);
    seq(|bucket|, i requires 0 <= i < |bucket| => if i < |ups| then bucket[ups[i]] else Free)
  }

  lemma UpsStep(H: Hasher, hp: nat, bucket: Bucket, b: int, n: int)
    requires Sound(H) && 0 <= n < |bucket|
    ensures Ups(H, hp, bucket, b, n + 1) == Ups(H, hp, bucket, b, n) + if bucket[n].Full?
            && GoesUp(H, hp, bucket[n].key, b) then [n] else []
  {
    hide GoesUp;
  }

  lemma HighStep(H: Hasher, hp: nat, bucket: Bucket, b: int, n: int)
    requires Sound(H) && 0 <= n < |bucket|
    ensures var up, k, high := bucket[n].Full?
            && GoesUp(H, hp, bucket[n].key, b), |Ups(H, hp, bucket, b, n)|, HighSoFar(H, hp, bucket, b, n);
            && |Ups(H, hp, bucket, b, n + 1)| == k + (if up then 1 else 0) && k < |bucket|
            && HighSoFar(H, hp, bucket, b, n + 1) == if up then high[k := bucket[n]] else high
  {
    UpsStep(H, hp, bucket, b, n);
    hide GoesUp, Ups, HighSoFar;
  }

  lemma LowStep(H: Hasher, hp: nat, bucket: Bucket, b: int, n: int)
    requires Sound(H) && 0 <= n < |bucket|
    ensures var stays, low := bucket[n].Full? && !GoesUp(H, hp, bucket[n].key, b), LowSoFar(H, hp, bucket, b, n);
            LowSoFar(H, hp, bucket, b, n + 1) == if stays then low[n := bucket[n]] else low
  {
    hide GoesUp, LowSoFar;
  }

  /** Spreads the keys of an old bucket over the two new ones, which are empty. */
  method Distribute(H: Hasher, hp: nat, bucket: Bucket, b: int, low0: Bucket, high0: Bucket)
    returns (low: Bucket, high: Bucket)
    requires Sound(H) && |bucket| == |low0| == |high0| && Empty(low0) && Empty(high0)
    ensures low == Low(H, hp, bucket, b) && high == High(H, hp, bucket, b)
  {
    hide GoesUp, Ups;
    low, high := low0, high0;
    var newSlot, s := 0, 0;
    NoUps(H, hp, bucket, b);
    while s < |bucket|
      invariant 0 <= s <= |bucket| && newSlot == |Ups(H, hp, bucket, b, s)|
      invariant low == LowSoFar(H, hp, bucket, b, s) && high == HighSoFar(H, hp, bucket, b, s)
    {
      HighStep(H, hp, bucket, b, s);
      LowStep(H, hp, bucket, b, s);
      if bucket[s].Full? {
        if GoesUp(H, hp, bucket[s].key, b) {
          high := high[newSlot := bucket[s]];
          newSlot := newSlot + 1;
        } else {
          low := low[s := bucket[s]];
        }
      }
      s := s + 1;
    }
  }

  lemma NoUps(H: Hasher, hp: nat, bucket: Bucket, b: int)
    requires Sound(H)
    ensures Ups(H, hp, bucket, b, 0) == []
  {
  }

  ghost predicate AllEmpty(cur: seq<Bucket>) {
    forall b :: 0 <= b < |cur| ==> Empty(cur[b])
  }

  lemma FreeSlots(cur: seq<Bucket>)
    requires AllEmpty(cur)
    ensures forall b, s {:trigger cur[b][s]} :: 0 <= b < |cur| && 0 <= s < |cur[b]| ==> cur[b][s] == Free
  {
    forall b, s | 0 <= b < |cur| && 0 <= s < |cur[b]| ensures cur[b][s] == Free {
      assert Empty(cur[b]);
    }
  }

  lemma AsideBlank(blank: seq<Bucket>, cur: seq<Bucket>)
    requires AllEmpty(blank) && |blank| == 2 * |cur|
    ensures Blank(blank, cur, Cards.Below(|cur|))
  {
  }

  lemma AsideHomed(H: Hasher, hp: nat, blank: seq<Bucket>, cur: seq<Bucket>)
    requires Sound(H) && AllEmpty(blank) && NewHomed(H, hp, cur)
    ensures Homed(H, hp, blank, cur, Cards.Below(|cur|))
  {
    hide Home;
    FreeSlots(blank);
    var all := Cards.Below(|cur|);
    forall p | Shown(blank, cur, all, p) && At(blank, cur, all, p).Full?
      ensures match p
              case New(b, _) => Home(H, hp + 1, At(blank, cur, all, p).key, b)
              case Old(b, _) => Home(H, hp, At(blank, cur, all, p).key, b)
    {
      assert p.Old? ==> cur[p.b][p.s] == At(blank, cur, all, p);
    }
  }

  lemma AsideDistinct(blank: seq<Bucket>, cur: seq<Bucket>, past: seq<Bucket>)
    requires AllEmpty(blank) && Distinct(cur, past, {})
    ensures Distinct(blank, cur, Cards.Below(|cur|))
  {
    FreeSlots(blank);
    var all := Cards.Below(|cur|);
    forall p, q | Shown(blank, cur, all, p) && Shown(blank, cur, all, q)
      ensures var x, y := At(blank, cur, all, p), At(blank, cur, all, q); (x.Full? && y.Full? && x.key == y.key ==>
                p == q)
    {
      assert p.Old? ==> Shown(cur, past, {}, New(p.b, p.s));
      assert q.Old? ==> Shown(cur, past, {}, New(q.b, q.s));
    }
  }

  lemma AsideHolds(blank: seq<Bucket>, cur: seq<Bucket>, past: seq<Bucket>)
    requires AllEmpty(blank)
    ensures forall x: Slot :: x.Full? ==> (Holds(blank, cur, Cards.Below(|cur|), x) <==> Holds(cur, past, {}, x))
  {
    FreeSlots(blank);
    var all := Cards.Below(|cur|);
    forall x: Slot | x.Full? ensures Holds(blank, cur, all, x) <==> Holds(cur, past, {}, x) {
      if Holds(blank, cur, all, x) {
        var p :| Shown(blank, cur, all, p) && At(blank, cur, all, p) == x;
        assert Shown(cur, past, {}, New(p.b, p.s)) && At(cur, past, {}, New(p.b, p.s)) == x;
      }
      if Holds(cur, past, {}, x) {
        var p :| Shown(cur, past, {}, p) && At(cur, past, {}, p) == x;
        assert Shown(blank, cur, all, Old(p.b, p.s)) && At(blank, cur, all, Old(p.b, p.s)) == x;
      }
    }
  }

  /** Without pending buckets the old array does not count. */
  lemma DropPast(cur: seq<Bucket>, past: seq<Bucket>, slots: int)
    requires Sized(cur, past, slots) && Distinct(cur, past, {})
    ensures Sized(cur, [], slots) && Distinct(cur, [], {})
    ensures forall x: Slot :: Holds(cur, [], {}, x) <==> Holds(cur, past, {}, x)
  {
    forall pl ensures Shown(cur, [], {}, pl) <==> Shown(cur, past, {}, pl) {
    }
    forall p, q | Shown(cur, [], {}, p) && Shown(cur, [], {}, q)
      ensures var x, y := At(cur, [], {}, p), At(cur, [], {}, q); (x.Full? && y.Full? && x.key == y.key ==> p == q)
    {
      assert Shown(cur, past, {}, p) && Shown(cur, past, {}, q);
    }
    forall x: Slot ensures Holds(cur, [], {}, x) <==> Holds(cur, past, {}, x) {
      if Holds(cur, past, {}, x) {
        var pl :| Shown(cur, past, {}, pl) && At(cur, past, {}, pl) == x;
        assert Shown(cur, [], {}, pl) && At(cur, [], {}, pl) == x;
      }
      if Holds(cur, [], {}, x) {
        var pl :| Shown(cur, [], {}, pl) && At(cur, [], {}, pl) == x;
        assert Shown(cur, past, {}, pl) && At(cur, past, {}, pl) == x;
      }
    }
  }

  lemma {:induction false} PowerOrder(n: nat, k: nat)
    ensures n < k ==> Power(n) < Power(k)
    decreases k
  {
    if n < k - 1 {
      PowerOrder(n, k - 1);
    }
  }

  lemma ModAtMost(a: int, d: int)
    requires 0 <= a && 1 <= d
    ensures a % d <= a
  {
    var q := a / d;
    assert a == d * q + a % d;
    assert q >= 0;
    assert d * q >= 0;
  }

  lemma HomesInRange(H: Hasher, hp: nat, key: int)
    requires Sound(H)
    ensures 0 <= First(H, hp, key) < Power(hp) && 0 <= Second(H, hp, key) < Power(hp)
  {
  }

  lemma HomedNew(H: Hasher, hp: nat, cur: seq<Bucket>, past: seq<Bucket>, pending: set<int>)
    requires Sound(H) && Homed(H, hp, cur, past, pending)
    ensures NewHomed(H, hp + 1, cur)
  {
    hide Home;
    forall b, s | 0 <= b < |cur| && 0 <= s < |cur[b]| && cur[b][s].Full? ensures Home(H, hp + 1, cur[b][s].key, b) {
      assert Shown(cur, past, pending, New(b, s));
    }
  }
}
