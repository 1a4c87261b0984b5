/**
 Searching for a cuckoo path: the breadth-first queue, and the number that encodes the slots of a path.
 */
module CuckooPath {
  import opened Division
  import opened CuckooBuckets

  const MAX_BFS_PATH_LEN: nat := 5
  const WORD16: int := 0x1_0000

  function Pow(s: int, n: nat): (p: int)
    requires 1 <= s
    ensures p >= 1
  {
    if n == 0 then 1 else s * Pow(s, n - 1)
  }

  // ---------- the queue ----------

  /** The entries that a search from one bucket can make: one, then `slots` for each entry of the depth before. */
  function Entries(slots: int, depths: nat): (n: int)
    requires 1 <= slots
    ensures n >= 0
  {
    if depths == 0 then 0 else Entries(slots, depths - 1) + Pow(slots, depths - 1)
  }

  /** The size of the queue in the code: a closed form of the geometric sum, for both buckets. */
  function Capacity(slots: int): (n: int)
    requires 1 <= slots
  {
    2 * if slots == 1 then MAX_BFS_PATH_LEN else (Pow(slots, MAX_BFS_PATH_LEN) - 1) / (slots - 1)
  }

  lemma {:induction false} GeometricSum(slots: int, depths: nat)
    requires 1 <= slots
    ensures Entries(slots, depths) * (slots - 1) == Pow(slots, depths) - 1
  {
    if depths > 0 {
      GeometricSum(slots, depths - 1);
      var p := Pow(slots, depths - 1);
      assert (Entries(slots, depths - 1) + p) * (slots - 1) == Entries(slots, depths - 1) * (slots - 1)
               + p * (slots - 1);
      assert p * (slots - 1) == p * slots - p;
    }
  }

  lemma {:induction false} OnesSum(depths: nat)
    ensures Entries(1, depths) == depths && Pow(1, depths) == 1
  {
    if depths > 0 {
      OnesSum(depths - 1);
    }
  }

  lemma CapacityIsSum(slots: int)
    requires 1 <= slots
    ensures Capacity(slots) == 2 * Entries(slots, MAX_BFS_PATH_LEN)
  {
    if slots == 1 {
      OnesSum(MAX_BFS_PATH_LEN);
    } else {
      GeometricSum(slots, MAX_BFS_PATH_LEN);
      var e, d := Entries(slots, MAX_BFS_PATH_LEN), slots - 1;
      assert e * d == Pow(slots, MAX_BFS_PATH_LEN) - 1;
      DivExact(e, d);
    }
  }

  lemma DivExact(e: int, d: int)
    requires 1 <= d
    ensures (e * d) / d == e
  {
    ModUnique(e * d, d, e, 0);
  }

  /** How many entries the children of an entry at depth `d`, and their children, can make, itself included. */
  function Subtree(slots: int, d: nat): (n: int)
    requires 1 <= slots && d < MAX_BFS_PATH_LEN
    ensures n >= 1
    decreases MAX_BFS_PATH_LEN - d
  {
    if d == MAX_BFS_PATH_LEN - 1 then 1 else 1 + slots * Subtree(slots, d + 1)
  }

  /** All that the entries in the queue can still lead to. */
  ghost function Future(slots: int, queue: seq<nat>): (n: int)
    requires 1 <= slots && forall i :: 0 <= i < |queue| ==> queue[i] < MAX_BFS_PATH_LEN
    ensures n >= |queue|
  {
    if queue == [] then 0 else Future(slots, queue[..|queue| - 1]) + Subtree(slots, queue[|queue| - 1])
  }

  /** A path: the bucket it starts from, 0 or 1, and a slot in each bucket on the way. */
  ghost predicate Path(slots: int, start: int, path: seq<int>) {
    0 <= start <= 1 && forall i :: 0 <= i < |path| ==> 0 <= path[i] < slots
  }

  /** The number of a path: its slots are the digits, behind the number of the first bucket. */
  function Encode(slots: int, start: int, path: seq<int>): (code: int) {
    if path == [] then start else Encode(slots, start, path[..|path| - 1]) * slots + path[|path| - 1]
  }

  lemma {:induction false} EncodeBound(slots: int, start: int, path: seq<int>)
    requires 1 <= slots && Path(slots, start, path)
    ensures 0 <= Encode(slots, start, path) < 2 * Pow(slots, |path|)
  {
    if path != [] {
      var k := |path| - 1;
      EncodeBound(slots, start, path[..k]);
      DigitBound(Encode(slots, start, path[..k]), path[k], slots, Pow(slots, k));
    }
  }

  lemma DigitBound(c: int, x: int, s: int, p: int)
    requires 0 <= x < s && 0 <= c < 2 * p
    ensures 0 <= c * s + x < 2 * (s * p)
  {
    AtLeast(s, 2 * p, c);
    Product(c, s);
    assert s * (2 * p) == 2 * (s * p);
  }

  /** The digits determine the path. */
  lemma {:induction false} EncodeInjective(slots: int, start: int, path: seq<int>, start': int, path': seq<int>)
    requires 1 <= slots && |path| == |path'| && Encode(slots, start, path) == Encode(slots, start', path')
    requires forall i :: 0 <= i < |path| ==> 0 <= path[i] < slots && 0 <= path'[i] < slots
    ensures start == start' && path == path'
  {
    if path != [] {
      var k := |path| - 1;
      var c, c' := Encode(slots, start, path[..k]), Encode(slots, start', path'[..k]);
      var code := Encode(slots, start, path);
      assert c * slots == slots * c && c' * slots == slots * c';
      ModUnique(code, slots, c, path[k]);
      ModUnique(code, slots, c', path'[k]);
      EncodeInjective(slots, start, path[..k], start', path'[..k]);
      assert path == path[..k] + [path[k]] && path' == path'[..k] + [path'[k]];
    }
  }

  /** Reads the slots off the number, the last one first; what is left is the number of the first bucket. */
  method Decode(slots: int, code: int, depth: nat) returns (start: int, path: seq<int>)
    requires 1 <= slots && 0 <= code
    ensures |path| == depth + 1 && Encode(slots, start, path) == code && 0 <= start
    ensures forall i :: 0 <= i < |path| ==> 0 <= path[i] < slots
  {
    hide Encode;
    path, start := [], code;
    EncodeNone(slots, code);
    var i := depth;
    while i >= 0
      invariant -1 <= i <= depth && |path| == depth - i && 0 <= start
      invariant (forall j :: 0 <= j < |path| ==> 0 <= path[j] < slots) && Encode(slots, start, path) == code
    {
      var rest, digit := start / slots, start % slots;
      Digits(start, slots);
      EncodeFront(slots, rest, digit, path);
      path := [digit] + path;
      start := rest;
      i := i - 1;
    }
  }

  lemma Digits(a: int, d: int)
    requires 0 <= a && 1 <= d
    ensures 0 <= a / d && 0 <= a % d < d && (a / d) * d + a % d == a
  {
    assert a == d * (a / d) + a % d;
  }

  lemma {:induction false} EncodeFront(slots: int, start: int, x: int, path: seq<int>)
    ensures Encode(slots, start, [x] + path) == Encode(slots, start * slots + x, path)
  {
    if path == [] {
      assert [x] + path == [x] && [x][..0] == [];
    } else {
      var k := |path| - 1;
      EncodeFront(slots, start, x, path[..k]);
      assert ([x] + path)[..|[x] + path| - 1] == [x] + path[..k];
    }
  }

  /** The number as it is kept, in 16 bits. */
  function Kept(slots: int, start: int, path: seq<int>): (code: int)
    ensures 0 <= code < WORD16
  {
    Encode(slots, start, path) % WORD16
  }

  /** The greatest number: the one with the last slot everywhere, from the second bucket. */
  lemma {:induction false} LongestPath(slots: int, n: nat) returns (path: seq<int>)
    requires 1 <= slots
    ensures |path| == n && Path(slots, 1, path) && Encode(slots, 1, path) == 2 * Pow(slots, n) - 1
  {
    if n == 0 {
      path := [];
    } else {
      var rest := LongestPath(slots, n - 1);
      path := rest + [slots - 1];
      assert path[..n - 1] == rest;
      var p := Pow(slots, n - 1);
      assert (2 * p - 1) * slots == 2 * (slots * p) - slots;
    }
  }

  /**
   Every path the search can find is read back from its 16-bit number exactly when twice `slots` to the power of the
   greatest length fits into 16 bits.
   */
  lemma CodesReadBack(slots: int)
    requires 1 <= slots
    ensures 2 * Pow(slots, MAX_BFS_PATH_LEN) <= WORD16 <==>
              (forall start, path :: Path(slots, start, path) && |path| <= MAX_BFS_PATH_LEN ==>
                  Kept(slots, start, path) == Encode(slots, start, path))
  {
    if 2 * Pow(slots, MAX_BFS_PATH_LEN) <= WORD16 {
      forall start, path | Path(slots, start, path) && |path| <= MAX_BFS_PATH_LEN
        ensures Kept(slots, start, path) == Encode(slots, start, path)
      {
        EncodeBound(slots, start, path);
        PowGrows(slots, |path|, MAX_BFS_PATH_LEN);
      }
    } else {
      var path := LongestPath(slots, MAX_BFS_PATH_LEN);
      assert Kept(slots, 1, path) != Encode(slots, 1, path);
    }
  }

  lemma {:induction false} PowGrows(s: int, k: nat, n: nat)
    requires 1 <= s && k <= n
    ensures Pow(s, k) <= Pow(s, n)
  {
    if k < n {
      PowGrows(s, k, n - 1);
      assert s * Pow(s, n - 1) >= Pow(s, n - 1);
    }
  }

  /** The bound that the code asserts at compile time is weaker: nine slots pass it and do not fit. */
  lemma NineSlots()
    ensures Pow(9, MAX_BFS_PATH_LEN) < WORD16 - 1 && 2 * Pow(9, MAX_BFS_PATH_LEN) > WORD16
    ensures Pow(8, MAX_BFS_PATH_LEN) * 2 == WORD16
  {
    assert Pow(9, 1) == 9 && Pow(9, 2) == 81 && Pow(9, 3) == 729 && Pow(9, 4) == 6561 && Pow(9, 5) == 59049;
    assert Pow(8, 1) == 8 && Pow(8, 2) == 64 && Pow(8, 3) == 512 && Pow(8, 4) == 4096 && Pow(8, 5) == 32768;
  }

  lemma EncodeNone(slots: int, start: int)
    ensures Encode(slots, start, []) == start
  {
  }

  // ---------- the search ----------

  /**
   An entry of the queue: a bucket, the number of a path to it, the length of that path, and the path itself, which
   starts from the first bucket (0) or the second one (1).
   */
  datatype Entry = Entry(bucket: int, code: int, depth: nat, start: int, path: seq<int>)

  /** A bucket array of hash power `hp`. */
  ghost predicate Shot(hp: nat, slots: int, cur: seq<Bucket>) {
    |cur| == Power(hp) && forall b :: 0 <= b < |cur| ==> |cur[b]| == slots
  }

  ghost predicate Shots(hp: nat, slots: int, shots: seq<seq<Bucket>>) {
    forall i :: 0 <= i < |shots| ==> Shot(hp, slots, shots[i])
  }

  ghost predicate ItemAt(cur: seq<Bucket>, b: int, s: int) {
    0 <= b < |cur| && 0 <= s < |cur[b]| && cur[b][s].Full?
  }

  /** From bucket `b`, the item seen in slot `s` at some time leads to bucket `b'`. */
  ghost predicate Hops(H: Hasher, hp: nat, shots: seq<seq<Bucket>>, b: int, s: int, b': int)
    requires Sound(H)
  {
    exists i :: 0 <= i < |shots| && ItemAt(shots[i], b, s) && b' == AltIndex(hp, H.mix(shots[i][b][s].key), b)
  }

  /** Along the slots `path`, items seen lead from bucket `b` to bucket `b'`. */
  ghost predicate Leads(H: Hasher, hp: nat, shots: seq<seq<Bucket>>, b: int, path: seq<int>, b': int)
    requires Sound(H)
    decreases |path|
  {
    if path == [] then b == b' else
      exists c {:trigger Hops(H, hp, shots, c, path[|path| - 1], b')} ::
        Leads(H, hp, shots, b, path[..|path| - 1], c) && Hops(H, hp, shots, c, path[|path| - 1], b')
  }

  ghost predicate Good(H: Hasher, hp: nat, slots: int, i1: int, i2: int, shots: seq<seq<Bucket>>, x: Entry)
    requires 1 <= slots && Sound(H)
  {
    && x.depth < MAX_BFS_PATH_LEN && |x.path| == x.depth && Path(slots, x.start, x.path)
    && x.code == Kept(slots, x.start, x.path)
    && 0 <= x.bucket < Power(hp) && Leads(H, hp, shots, if x.start == 0 then i1 else i2, x.path, x.bucket)
  }

  ghost predicate AllGood(H: Hasher, hp: nat, slots: int, i1: int, i2: int, shots: seq<seq<Bucket>>, q: seq<Entry>)
    requires 1 <= slots && Sound(H)
  {
    forall i :: 0 <= i < |q| ==> Good(H, hp, slots, i1, i2, shots, q[i])
  }

  ghost function Depths(q: seq<Entry>): (r: seq<nat>)
    ensures |r| == |q| && forall i :: 0 <= i < |q| ==> r[i] == q[i].depth
  {
    seq(|q|, i requires 0 <= i < |q| => q[i].depth)
  }

  ghost predicate Short(q: seq<Entry>) {
    forall i :: 0 <= i < |q| ==> q[i].depth < MAX_BFS_PATH_LEN
  }

  /** What the entries from `first` on can still lead to. */
  ghost function Ahead(slots: int, q: seq<Entry>, first: int): (n: int)
    requires 1 <= slots && 0 <= first <= |q| && Short(q)
    ensures n >= |q| - first
  {
    assert forall i :: 0 <= i < |q[first..]| ==> q[first..][i].depth < MAX_BFS_PATH_LEN;
    Future(slots, Depths(q[first..]))
  }

  lemma FutureMore(slots: int, queue: seq<nat>, d: nat)
    requires 1 <= slots && d < MAX_BFS_PATH_LEN && forall i :: 0 <= i < |queue| ==> queue[i] < MAX_BFS_PATH_LEN
    ensures Future(slots, queue + [d]) == Future(slots, queue) + Subtree(slots, d)
  {
    assert (queue + [d])[..|queue + [d]| - 1] == queue;
  }

  lemma {:induction false} FutureFront(slots: int, queue: seq<nat>)
    requires 1 <= slots && queue != [] && forall i :: 0 <= i < |queue| ==> queue[i] < MAX_BFS_PATH_LEN
    ensures Future(slots, queue) == Subtree(slots, queue[0]) + Future(slots, queue[1..])
  {
    var k := |queue| - 1;
    if k > 0 {
      FutureFront(slots, queue[..k]);
      assert queue[..k][1..] == queue[1..][..k - 1];
      assert queue[1..][|queue[1..]| - 1] == queue[k];
    } else {
      assert queue[1..] == [] && queue[..0] == [];
    }
  }

  /** One entry more at the end of the queue. */
  lemma AheadMore(slots: int, q: seq<Entry>, first: int, z: Entry)
    requires 1 <= slots && 0 <= first <= |q| && Short(q) && z.depth < MAX_BFS_PATH_LEN
    ensures Ahead(slots, q + [z], first) == Ahead(slots, q, first) + Subtree(slots, z.depth)
  {
    FutureMore(slots, Depths(q[first..]), z.depth);
    assert (q + [z])[first..] == q[first..] + [z];
    assert Depths(q[first..] + [z]) == Depths(q[first..]) + [z.depth];
  }

  /** One entry less at the front of the queue. */
  lemma AheadFront(slots: int, q: seq<Entry>, first: int)
    requires 1 <= slots && 0 <= first < |q| && Short(q)
    ensures Ahead(slots, q, first) == Subtree(slots, q[first].depth) + Ahead(slots, q, first + 1)
  {
    FutureFront(slots, Depths(q[first..]));
    assert Depths(q[first..])[1..] == Depths(q[first + 1..]);
  }

  /** From the first bucket on, the entries fill the queue exactly. */
  lemma {:induction false} SubtreeIsSum(slots: int, d: nat)
    requires 1 <= slots && d < MAX_BFS_PATH_LEN
    ensures Subtree(slots, d) == Entries(slots, MAX_BFS_PATH_LEN - d)
    decreases MAX_BFS_PATH_LEN - d
  {
    if d == MAX_BFS_PATH_LEN - 1 {
      assert Entries(slots, 1) == Entries(slots, 0) + Pow(slots, 0);
    } else {
      SubtreeIsSum(slots, d + 1);
      EntriesShift(slots, MAX_BFS_PATH_LEN - d - 1);
    }
  }

  lemma {:induction false} EntriesShift(slots: int, n: nat)
    requires 1 <= slots
    ensures Entries(slots, n + 1) == 1 + slots * Entries(slots, n)
  {
    if n == 0 {
      assert Entries(slots, 1) == Entries(slots, 0) + Pow(slots, 0);
    } else {
      EntriesShift(slots, n - 1);
      var e, p := Entries(slots, n - 1), Pow(slots, n - 1);
      assert slots * (e + p) == slots * e + slots * p;
    }
  }

  /** One digit more, kept in 16 bits. */
  lemma KeptMore(slots: int, start: int, path: seq<int>, slot: int)
    requires 1 <= slots
    ensures (Kept(slots, start, path) * slots + slot) % WORD16 == Kept(slots, start, path + [slot])
  {
    assert (path + [slot])[..|path + [slot]| - 1] == path;
    var c := Encode(slots, start, path);
    var q, r := c / WORD16, c % WORD16;
    var d := r * slots + slot;
    assert c * slots + slot == WORD16 * (q * slots) + d;
    ModUnique(c * slots + slot, WORD16, q * slots + d / WORD16, d % WORD16);
  }

  lemma LeadsMore(H: Hasher, hp: nat, shots: seq<seq<Bucket>>, b: int, path: seq<int>, c: int, s: int, b': int)
    requires Sound(H) && Leads(H, hp, shots, b, path, c) && Hops(H, hp, shots, c, s, b')
    ensures Leads(H, hp, shots, b, path + [s], b')
  {
    hide Hops;
    var all := path + [s];
    assert all[..|all| - 1] == path && all[|all| - 1] == s;
    assert Leads(H, hp, shots, b, all[..|all| - 1], c) && Hops(H, hp, shots, c, all[|all| - 1], b');
  }

  /** What the search ends with: a path to a bucket in which the last slot was seen free. */
  ghost predicate Ended(H: Hasher, hp: nat, slots: int, i1: int, i2: int, shots: seq<seq<Bucket>>, x: Entry)
    requires 1 <= slots && Sound(H)
  {
    && 1 <= |x.path| == x.depth + 1 <= MAX_BFS_PATH_LEN && Path(slots, x.start, x.path)
    && x.code == Kept(slots, x.start, x.path)
    && 0 <= x.bucket < Power(hp) && Leads(H, hp, shots, if x.start == 0 then i1 else i2, x.path[..x.depth], x.bucket)
    && exists i :: 0 <= i < |shots| && FreeAt(shots[i], x.bucket, x.path[x.depth])
  }

  ghost predicate FreeAt(cur: seq<Bucket>, b: int, s: int) {
    0 <= b < |cur| && 0 <= s < |cur[b]| && cur[b][s].Free?
  }

  // ---------- what the search has looked at ----------

  /** Entry `y` is where the item in slot `s` of the bucket of `x` leads to in the array `cur`. */
  ghost predicate ChildOf(H: Hasher, hp: nat, cur: seq<Bucket>, x: Entry, s: int, y: Entry)
    requires Sound(H)
  {
    && ItemAt(cur, x.bucket, s) && y.bucket == AltIndex(hp, H.mix(cur[x.bucket][s].key), x.bucket)
    && y.depth == x.depth + 1 && y.start == x.start && y.path == x.path + [s]
  }

  ghost predicate HasChild(H: Hasher, hp: nat, cur: seq<Bucket>, q: seq<Entry>, i: int, s: int)
    requires Sound(H) && 0 <= i < |q|
  {
    exists k :: i < k < |q| && ChildOf(H, hp, cur, q[i], s, q[k])
  }

  /** Slot `s` of the bucket of entry `i` was full, and its item has an entry unless the path would be too long. */
  ghost predicate Passed(H: Hasher, hp: nat, cur: seq<Bucket>, q: seq<Entry>, i: int, s: int)
    requires Sound(H) && 0 <= i < |q|
  {
    ItemAt(cur, q[i].bucket, s) && (q[i].depth < MAX_BFS_PATH_LEN - 1 ==> HasChild(H, hp, cur, q, i, s))
  }

  /** The first `n` entries have had their turns, and none of their buckets had a free slot then. */
  ghost predicate Swept(H: Hasher, hp: nat, slots: int, shots: seq<seq<Bucket>>, q: seq<Entry>, n: int)
    requires Sound(H)
  {
    && 0 <= n <= |q| && n <= |shots|
    && forall i, s {:trigger Passed(H, hp, shots[i], q, i, s)} :: 0 <= i < n && 0 <= s < slots ==>
         Passed(H, hp, shots[i], q, i, s)
  }

  /** The queue begins with the two buckets, and no path comes before a shorter one. */
  ghost predicate Ordered(i1: int, i2: int, q: seq<Entry>) {
    && |q| >= 2 && q[0].bucket == i1 && q[0].start == 0 && q[1].bucket == i2 && q[1].start == 1
    && (forall i :: 0 <= i < 2 ==> q[i].depth == 0 && q[i].path == [])
    && forall i, j :: 0 <= i < j < |q| ==> q[i].depth <= q[j].depth
  }

  /** No entry is more than one step deeper than entry `n`. */
  ghost predicate Level(q: seq<Entry>, n: int) {
    0 <= n < |q| ==> forall i :: 0 <= i < |q| ==> q[i].depth <= q[n].depth + 1
  }

  /** The search has ended with `x`: the bucket of entry `n`, the first one with a free slot. */
  ghost predicate Stopped(slots: int, shots: seq<seq<Bucket>>, q: seq<Entry>, n: int, x: Entry) {
    && 0 <= n < |q| && n < |shots| && x.bucket == q[n].bucket && x.start == q[n].start && x.depth == q[n].depth
    && |x.path| == x.depth + 1 && x.path[..x.depth] == q[n].path && 0 <= x.path[x.depth] < slots
    && FreeAt(shots[n], x.bucket, x.path[x.depth])
  }

  lemma ChildStays(H: Hasher, hp: nat, slots: int, shots: seq<seq<Bucket>>, q: seq<Entry>, n: int, z: Entry)
    requires Sound(H) && Swept(H, hp, slots, shots, q, n)
    ensures Swept(H, hp, slots, shots, q + [z], n)
  {
    hide ChildOf;
    forall i, s | 0 <= i < n && 0 <= s < slots ensures Passed(H, hp, shots[i], q + [z], i, s) {
      assert Passed(H, hp, shots[i], q, i, s);
      PassedStays(H, hp, shots[i], q, i, s, z);
    }
  }

  lemma PassedStays(H: Hasher, hp: nat, cur: seq<Bucket>, q: seq<Entry>, i: int, s: int, z: Entry)
    requires Sound(H) && 0 <= i < |q| && Passed(H, hp, cur, q, i, s)
    ensures Passed(H, hp, cur, q + [z], i, s)
  {
    hide ChildOf;
    if HasChild(H, hp, cur, q, i, s) {
      var k :| i < k < |q| && ChildOf(H, hp, cur, q[i], s, q[k]);
      assert (q + [z])[k] == q[k];
    }
  }

  /**
   The breadth-first search.  `shots[i]` is the bucket array when the `i`-th entry has its turn, since other threads may
   change it meanwhile.  The queue never overflows.  The search ends with the first bucket in which it sees a free
   slot; `queue` is the queue then and `turns` the number of buckets seen full.
   */
  method SlotSearch(H: Hasher, hp: nat, slots: int, i1: int, i2: int, shots: seq<seq<Bucket>>)
    returns (found: bool, x: Entry, ghost queue: seq<Entry>, ghost turns: int)
    requires Sound(H) && 1 <= slots && 0 <= i1 < Power(hp) && 0 <= i2 < Power(hp)
    requires |shots| >= Capacity(slots) && Shots(hp, slots, shots)
    ensures |queue| <= Capacity(slots)
    ensures found ==> Ended(H, hp, slots, i1, i2, shots, x)
    ensures Ordered(i1, i2, queue) && Swept(H, hp, slots, shots, queue, turns)
    ensures if found then Stopped(slots, shots, queue, turns, x) else turns == |queue|
  {
    hide Future, Subtree, Capacity, Encode, Kept, Leads, Power, Ahead, Ended, Shot, Passed, Swept, Stopped, Level;
    var q := [Entry(i1, 0, 0, 0, []), Entry(i2, 1, 0, 1, [])];
    found, x, queue, turns := false, q[0], q, 0;
    var first := 0;
    SearchStart(H, hp, slots, i1, i2, shots, q);
    while first < |q|
      invariant 0 <= first <= |q| && queue == q && turns == first && AllGood(H, hp, slots, i1, i2, shots, q)
      invariant first + Ahead(slots, q, first) == Capacity(slots)
      invariant Ordered(i1, i2, q) && Swept(H, hp, slots, shots, q, first) && Level(q, first)
      decreases Capacity(slots) - first
    {
      AheadFront(slots, q, first);
      found, x, q := ScanBucket(H, hp, slots, i1, i2, shots, first, q);
      queue := q;
      if found {
        return;
      }
      first := first + 1;
      turns := first;
    }
  }

  lemma SearchStart(H: Hasher, hp: nat, slots: int, i1: int, i2: int, shots: seq<seq<Bucket>>, q: seq<Entry>)
    requires Sound(H) && 1 <= slots && 0 <= i1 < Power(hp) && 0 <= i2 < Power(hp)
    requires q == [Entry(i1, 0, 0, 0, []), Entry(i2, 1, 0, 1, [])]
    ensures AllGood(H, hp, slots, i1, i2, shots, q) && Ahead(slots, q, 0) == Capacity(slots) && 2 <= Capacity(slots)
    ensures Ordered(i1, i2, q) && Swept(H, hp, slots, shots, q, 0) && Level(q, 0)
  {
    StartGood(H, hp, slots, i1, i2, shots, q);
    hide Capacity, Power, Leads, Encode, Pow, Entries, Subtree;
    SubtreeIsSum(slots, 0);
    CapacityIsSum(slots);
    AheadFront(slots, q, 0);
    AheadFront(slots, q, 1);
    assert Depths(q[2..]) == [];
  }

  lemma StartGood(H: Hasher, hp: nat, slots: int, i1: int, i2: int, shots: seq<seq<Bucket>>, q: seq<Entry>)
    requires Sound(H) && 1 <= slots && 0 <= i1 < Power(hp) && 0 <= i2 < Power(hp)
    requires q == [Entry(i1, 0, 0, 0, []), Entry(i2, 1, 0, 1, [])]
    ensures AllGood(H, hp, slots, i1, i2, shots, q) && Short(q)
  {
    hide Power;
  }

  /**
   The slots of the bucket of entry `x`, from the slot its number suggests on: the first free one ends the search, and
   the item in every other one leads to a new entry.
   */
  method ScanBucket(H: Hasher, hp: nat, slots: int, i1: int, i2: int, shots: seq<seq<Bucket>>, first: int,
                    q0: seq<Entry>)
    returns (found: bool, y: Entry, q: seq<Entry>)
    requires Sound(H) && 1 <= slots && Shots(hp, slots, shots)
    requires 0 <= first < |q0| && AllGood(H, hp, slots, i1, i2, shots, q0) && first < |shots|
    requires first + Subtree(slots, q0[first].depth) + Ahead(slots, q0, first + 1) == Capacity(slots)
    requires Ordered(i1, i2, q0) && Swept(H, hp, slots, shots, q0, first) && Level(q0, first)
    ensures |q| <= Capacity(slots) && |q| >= |q0| && AllGood(H, hp, slots, i1, i2, shots, q)
    ensures !found ==> first + 1 + Ahead(slots, q, first + 1) == Capacity(slots)
    ensures found ==> Ended(H, hp, slots, i1, i2, shots, y)
    ensures Ordered(i1, i2, q) && Level(q, first + 1)
    ensures Swept(H, hp, slots, shots, q, if found then first else first + 1)
    ensures found ==> Stopped(slots, shots, q, first, y)
  {
    hide Future, Capacity, Encode, Kept, Leads, Power, Ahead, AltIndex, Swept, ScannedTo, Ordered, Level, SlotFrom;
    NothingScanned(H, hp, slots, shots[first], q0, first, q0[first].code % slots);
    var x := q0[first];
    var bucket := shots[first][x.bucket];
    found, y, q := false, x, q0;
    var begin, i := x.code % slots, 0;
    ghost var deep := if x.depth < MAX_BFS_PATH_LEN - 1 then Subtree(slots, x.depth + 1) else 0;
    assert (slots - 0) * deep == slots * deep;
    while i < slots
      invariant 0 <= i <= slots && |q| >= |q0| && q[first] == x && AllGood(H, hp, slots, i1, i2, shots, q)
      invariant Ordered(i1, i2, q) && Level(q, first) && Swept(H, hp, slots, shots, q, first)
      invariant ScannedTo(H, hp, slots, shots[first], q, first, begin, i)
      invariant first + 1 + (slots - i) * deep + Ahead(slots, q, first + 1) == Capacity(slots)
      invariant 0 <= (slots - i) * deep
    {
      var slot := SlotFrom(begin, i, slots);
      KeptMore(slots, x.start, x.path, slot);
      var code := (x.code * slots + slot) % WORD16;
      if bucket[slot].Free? {
        y := Entry(x.bucket, code, x.depth, x.start, x.path + [slot]);
        assert y.path[..y.depth] == x.path && FreeAt(shots[first], y.bucket, y.path[y.depth]);
        found := true;
        LevelNext(i1, i2, q, first);
        return;
      }
      LessTimes(slots - i, deep);
      if x.depth < MAX_BFS_PATH_LEN - 1 {
        var z := Entry(AltIndex(hp, H.mix(bucket[slot].key), x.bucket), code, x.depth + 1, x.start, x.path + [slot]);
        assert ItemAt(shots[first], x.bucket, slot);
        LeadsMore(H, hp, shots, if x.start == 0 then i1 else i2, x.path, x.bucket, slot, z.bucket);
        AheadMore(slots, q, first + 1, z);
        ChildStays(H, hp, slots, shots, q, first, z);
        QueueMore(i1, i2, q, first, z);
        ChildPushed(H, hp, slots, shots[first], q, first, begin, i, z);
        q := q + [z];
      } else {
        LeafPassed(H, hp, slots, shots[first], q, first, begin, i);
      }
      i := i + 1;
    }
    LevelNext(i1, i2, q, first);
    AllScanned(H, hp, slots, shots, q, first, begin);
  }

  /** The first `n` slots from `begin` on, going round, have been passed. */
  ghost predicate ScannedTo(H: Hasher, hp: nat, slots: int, cur: seq<Bucket>, q: seq<Entry>, i: int, begin: int, n: int)
    requires Sound(H) && 1 <= slots
  {
    0 <= i < |q| && forall k :: 0 <= k < n ==> Passed(H, hp, cur, q, i, SlotFrom(begin, k, slots))
  }

  /** The slot looked at after `k` others, from `begin` on and going round. */
  function SlotFrom(begin: int, k: int, slots: int): (s: int)
    requires 1 <= slots
    ensures 0 <= s < slots
  {
    (begin + k) % slots
  }

  lemma ScannedMore(H: Hasher, hp: nat, slots: int, cur: seq<Bucket>, q: seq<Entry>, i: int, begin: int, n: int,
                    z: Entry)
    requires Sound(H) && 1 <= slots && ScannedTo(H, hp, slots, cur, q, i, begin, n)
    ensures ScannedTo(H, hp, slots, cur, q + [z], i, begin, n)
  {
    hide Passed, SlotFrom;
    forall k | 0 <= k < n ensures Passed(H, hp, cur, q + [z], i, SlotFrom(begin, k, slots)) {
      PassedStays(H, hp, cur, q, i, SlotFrom(begin, k, slots), z);
    }
  }

  lemma ChildPushed(H: Hasher, hp: nat, slots: int, cur: seq<Bucket>, q: seq<Entry>, i: int, begin: int, n: int,
                    z: Entry)
    requires Sound(H) && 1 <= slots && ScannedTo(H, hp, slots, cur, q, i, begin, n) && 0 <= i < |q|
    requires ChildOf(H, hp, cur, q[i], SlotFrom(begin, n, slots), z)
    ensures ScannedTo(H, hp, slots, cur, q + [z], i, begin, n + 1)
  {
    hide ChildOf, ScannedTo, SlotFrom;
    ScannedMore(H, hp, slots, cur, q, i, begin, n, z);
    var q' := q + [z];
    assert ChildOf(H, hp, cur, q'[i], SlotFrom(begin, n, slots), q'[|q|]);
    ChildItem(H, hp, cur, q[i], SlotFrom(begin, n, slots), z);
    ScannedOne(H, hp, slots, cur, q', i, begin, n);
  }

  lemma ChildItem(H: Hasher, hp: nat, cur: seq<Bucket>, x: Entry, s: int, z: Entry)
    requires Sound(H) && ChildOf(H, hp, cur, x, s, z)
    ensures ItemAt(cur, x.bucket, s)
  {
  }

  lemma LeafPassed(H: Hasher, hp: nat, slots: int, cur: seq<Bucket>, q: seq<Entry>, i: int, begin: int, n: int)
    requires Sound(H) && 1 <= slots && ScannedTo(H, hp, slots, cur, q, i, begin, n) && 0 <= i < |q|
    requires ItemAt(cur, q[i].bucket, SlotFrom(begin, n, slots)) && q[i].depth >= MAX_BFS_PATH_LEN - 1
    ensures ScannedTo(H, hp, slots, cur, q, i, begin, n + 1)
  {
    hide ScannedTo, SlotFrom;
    ScannedOne(H, hp, slots, cur, q, i, begin, n);
  }

  lemma NothingScanned(H: Hasher, hp: nat, slots: int, cur: seq<Bucket>, q: seq<Entry>, i: int, begin: int)
    requires Sound(H) && 1 <= slots && 0 <= i < |q|
    ensures ScannedTo(H, hp, slots, cur, q, i, begin, 0)
  {
  }

  lemma ScannedOne(H: Hasher, hp: nat, slots: int, cur: seq<Bucket>, q: seq<Entry>, i: int, begin: int, n: int)
    requires Sound(H) && 1 <= slots && ScannedTo(H, hp, slots, cur, q, i, begin, n)
    requires Passed(H, hp, cur, q, i, SlotFrom(begin, n, slots))
    ensures ScannedTo(H, hp, slots, cur, q, i, begin, n + 1)
  {
    hide Passed, SlotFrom;
  }

  /** Going round once passes every slot. */
  lemma AllScanned(H: Hasher, hp: nat, slots: int, shots: seq<seq<Bucket>>, q: seq<Entry>, n: int, begin: int)
    requires Sound(H) && 1 <= slots && 0 <= begin < slots && 0 <= n < |q| && n < |shots|
    requires Swept(H, hp, slots, shots, q, n) && ScannedTo(H, hp, slots, shots[n], q, n, begin, slots)
    ensures Swept(H, hp, slots, shots, q, n + 1)
  {
    hide Passed;
    forall s | 0 <= s < slots ensures Passed(H, hp, shots[n], q, n, s) {
      var k := if begin <= s then s - begin else s - begin + slots;
      ModUnique(begin + k, slots, if begin <= s then 0 else 1, s);
      assert SlotFrom(begin, k, slots) == s;
    }
  }

  lemma QueueMore(i1: int, i2: int, q: seq<Entry>, n: int, z: Entry)
    requires Ordered(i1, i2, q) && 0 <= n < |q| && Level(q, n) && z.depth == q[n].depth + 1
    ensures Ordered(i1, i2, q + [z]) && Level(q + [z], n)
  {
  }

  lemma LevelNext(i1: int, i2: int, q: seq<Entry>, n: int)
    requires Ordered(i1, i2, q) && 0 <= n && Level(q, n)
    ensures Level(q, n + 1)
  {
  }

  lemma LessTimes(n: int, d: int)
    requires 1 <= n && 0 <= d
    ensures n * d == (n - 1) * d + d && 0 <= (n - 1) * d
  {
  }

  // ---------- filling in the path ----------

  /** A step of a cuckoo path: a slot, and the hash of the item seen there. */
  datatype PathStep = PathStep(b: int, s: int, hash: int)

  /** What a search sees: the bucket array at each look of the breadth-first search, then at each step of the path. */
  datatype View = View(shots: seq<seq<Bucket>>, later: seq<seq<Bucket>>)

  ghost predicate Seen(hp: nat, slots: int, v: View) {
    && 1 <= slots && |v.shots| >= Capacity(slots) && Shots(hp, slots, v.shots)
    && |v.later| >= MAX_BFS_PATH_LEN && Shots(hp, slots, v.later)
  }

  /** A path that starts in bucket `i` or `j` and goes on, at every step, to the other bucket of the item seen. */
  ghost predicate OnPath(H: Hasher, hp: nat, slots: int, i: int, j: int, path: seq<PathStep>)
    requires Sound(H)
  {
    && |path| >= 1 && (path[0].b == i || path[0].b == j) && 0 <= i < Power(hp) && 0 <= j < Power(hp)
    && (forall n :: 0 <= n < |path| ==> 0 <= path[n].b < Power(hp) && 0 <= path[n].s < slots)
    && Linked(H, hp, path)
  }

  ghost predicate Linked(H: Hasher, hp: nat, path: seq<PathStep>)
    requires Sound(H)
  {
    forall n :: 0 <= n < |path| - 1 ==>
             0 <= path[n].b && path[n + 1].b == AltIndex(hp, H.spread(path[n].hash), path[n].b)
  }

  lemma LinkedMore(H: Hasher, hp: nat, path: seq<PathStep>, x: PathStep)
    requires Sound(H) && Linked(H, hp, path)
    requires path != [] ==> var y := path[|path| - 1]; 0 <= y.b && x.b == AltIndex(hp, H.spread(y.hash), y.b)
    ensures Linked(H, hp, path + [x])
  {
    hide AltIndex;
  }

  /** The steps go through the slots `slots'`, up to where they end. */
  ghost predicate Through(path: seq<PathStep>, slots': seq<int>) {
    |path| <= |slots'| && forall n :: 0 <= n < |path| ==> path[n].s == slots'[n]
  }

  /** In the array `cur` every step but the last finds an item with its hash, and the last one a free slot. */
  ghost predicate Fits(H: Hasher, cur: seq<Bucket>, path: seq<PathStep>) {
    && |path| >= 1 && FreeAt(cur, path[|path| - 1].b, path[|path| - 1].s)
    && forall n :: 0 <= n < |path| - 1 ==>
         ItemAt(cur, path[n].b, path[n].s) && H.hash(cur[path[n].b][path[n].s].key) == path[n].hash
  }

  /** The looks at the buckets all see the array `cur`. */
  ghost predicate Same(shots: seq<seq<Bucket>>, cur: seq<Bucket>) {
    forall i :: 0 <= i < |shots| ==> shots[i] == cur
  }

  /** Along `path`, the items of one array lead from bucket `b` to a bucket, and to no other. */
  ghost predicate Reaches(H: Hasher, hp: nat, cur: seq<Bucket>, b: int, path: seq<int>, b': int)
    requires Sound(H)
    decreases |path|
  {
    if path == [] then b == b' else
      ItemAt(cur, b, path[0]) && Reaches(H, hp, cur, AltIndex(hp, H.mix(cur[b][path[0]].key), b), path[1..], b')
  }

  lemma {:induction false} ReachesMore(H: Hasher, hp: nat, cur: seq<Bucket>, b: int, path: seq<int>, c: int, s: int)
    requires Sound(H) && Reaches(H, hp, cur, b, path, c) && ItemAt(cur, c, s)
    ensures Reaches(H, hp, cur, b, path + [s], AltIndex(hp, H.mix(cur[c][s].key), c))
    decreases |path|
  {
    if path == [] {
      assert (path + [s])[1..] == [];
    } else {
      ReachesMore(H, hp, cur, AltIndex(hp, H.mix(cur[b][path[0]].key), b), path[1..], c, s);
      assert (path + [s])[1..] == path[1..] + [s];
    }
  }

  /** When nothing changes between the looks, they all follow one array. */
  lemma {:induction false} LeadsReaches(H: Hasher, hp: nat, shots: seq<seq<Bucket>>, cur: seq<Bucket>, b: int,
                                        path: seq<int>, b': int)
    requires Sound(H) && Same(shots, cur) && Leads(H, hp, shots, b, path, b')
    ensures Reaches(H, hp, cur, b, path, b')
    decreases |path|
  {
    if path != [] {
      var k := |path| - 1;
      var c :| Leads(H, hp, shots, b, path[..k], c) && Hops(H, hp, shots, c, path[k], b');
      LeadsReaches(H, hp, shots, cur, b, path[..k], c);
      ReachesMore(H, hp, cur, b, path[..k], c, path[k]);
      assert path == path[..k] + [path[k]];
    }
  }

  /** A step of the path has seen an item with its hash. */
  ghost predicate Witnessed(H: Hasher, later: seq<seq<Bucket>>, path: seq<PathStep>, k: int) {
    k <= |path| && |path| <= |later| && forall n :: 0 <= n < k ==>
      ItemAt(later[n], path[n].b, path[n].s) && H.hash(later[n][path[n].b][path[n].s].key) == path[n].hash
  }

  /**
   The steps go through the slots `digits`: all but the last have seen an item with their hash, and the path ends before
   the last digit only where a slot was seen free.
   */
  ghost predicate Retraced(H: Hasher, later: seq<seq<Bucket>>, digits: seq<int>, path: seq<PathStep>) {
    && |path| >= 1 && Through(path, digits) && Witnessed(H, later, path, |path| - 1)
    && (|path| < |digits| ==> FreeAt(later[|path| - 1], path[|path| - 1].b, path[|path| - 1].s))
  }

  lemma {:induction false} ReachesOne(H: Hasher, hp: nat, cur: seq<Bucket>, b: int, path: seq<int>, c: int, c': int)
    requires Sound(H) && Reaches(H, hp, cur, b, path, c) && Reaches(H, hp, cur, b, path, c')
    ensures c == c'
    decreases |path|
  {
    hide AltIndex;
    if path != [] {
      ReachesOne(H, hp, cur, AltIndex(hp, H.mix(cur[b][path[0]].key), b), path[1..], c, c');
    }
  }

  lemma {:induction false} ReachesJoin(H: Hasher, hp: nat, cur: seq<Bucket>, b: int, p: seq<int>, c: int, p': seq<int>,
                                       c': int)
    requires Sound(H) && Reaches(H, hp, cur, b, p, c) && Reaches(H, hp, cur, c, p', c')
    ensures Reaches(H, hp, cur, b, p + p', c')
    decreases |p|
  {
    hide AltIndex;
    if p == [] {
      assert p + p' == p';
    } else {
      ReachesJoin(H, hp, cur, AltIndex(hp, H.mix(cur[b][p[0]].key), b), p[1..], c, p', c');
      assert (p + p')[1..] == p[1..] + p';
    }
  }

  /** What is met on the way. */
  lemma {:induction false} ReachesVia(H: Hasher, hp: nat, cur: seq<Bucket>, b: int, path: seq<int>, b': int, m: nat)
    returns (c: int)
    requires Sound(H) && Reaches(H, hp, cur, b, path, b') && m <= |path|
    ensures Reaches(H, hp, cur, b, path[..m], c) && Reaches(H, hp, cur, c, path[m..], b')
    decreases |path|
  {
    hide AltIndex;
    if m == 0 {
      c := b;
      assert path[0..] == path;
    } else {
      c := ReachesVia(H, hp, cur, AltIndex(hp, H.mix(cur[b][path[0]].key), b), path[1..], b', m - 1);
      assert path[..m][1..] == path[1..][..m - 1] && path[m..] == path[1..][m - 1..];
    }
  }

  /** In an array that does not change, the steps are in the buckets that the digits lead to. */
  lemma {:induction false} Along(H: Hasher, hp: nat, later: seq<seq<Bucket>>, cur: seq<Bucket>, digits: seq<int>,
                                 path: seq<PathStep>, m: nat, n: nat)
    requires Sound(H) && Same(later, cur) && Retraced(H, later, digits, path) && Linked(H, hp, path)
    requires m <= n < |path|
    ensures Reaches(H, hp, cur, path[m].b, digits[m..n], path[n].b)
    decreases n
  {
    hide AltIndex;
    if m < n {
      Along(H, hp, later, cur, digits, path, m, n - 1);
      assert later[n - 1] == cur;
      assert path[n].b == AltIndex(hp, H.spread(path[n - 1].hash), path[n - 1].b);
      ReachesMore(H, hp, cur, path[m].b, digits[m..n - 1], path[n - 1].b, digits[n - 1]);
      assert digits[m..n] == digits[m..n - 1] + [digits[n - 1]];
    }
  }

  // ---------- searches of an array that does not change ----------

  /** From one of the two buckets, items of `cur` lead to bucket `b` along `path`, which is short enough. */
  ghost predicate Route(H: Hasher, hp: nat, slots: int, cur: seq<Bucket>, i1: int, i2: int, start: int, path: seq<int>,
                        b: int)
    requires Sound(H)
  {
    && Path(slots, start, path) && |path| < MAX_BFS_PATH_LEN
    && Reaches(H, hp, cur, if start == 0 then i1 else i2, path, b)
  }

  ghost predicate InReach(H: Hasher, hp: nat, slots: int, cur: seq<Bucket>, i1: int, i2: int, b: int)
    requires Sound(H)
  {
    exists start, path :: Route(H, hp, slots, cur, i1, i2, start, path, b)
  }

  /** No bucket within reach has a free slot. */
  ghost predicate Exhausted(H: Hasher, hp: nat, slots: int, cur: seq<Bucket>, i1: int, i2: int)
    requires Sound(H)
  {
    forall b, s {:trigger ItemAt(cur, b, s)} :: InReach(H, hp, slots, cur, i1, i2, b) && 0 <= s < slots ==>
      ItemAt(cur, b, s)
  }

  /** Every route shorter than the entry whose turn it is has had its turn. */
  lemma {:induction false} EntryOf(H: Hasher, hp: nat, slots: int, cur: seq<Bucket>, i1: int, i2: int,
                                   shots: seq<seq<Bucket>>, q: seq<Entry>, n: int, start: int, path: seq<int>, b: int)
    returns (i: int)
    requires Sound(H) && Same(shots, cur) && Ordered(i1, i2, q) && Swept(H, hp, slots, shots, q, n)
    requires Route(H, hp, slots, cur, i1, i2, start, path, b) && (n < |q| ==> |path| < q[n].depth)
    ensures 0 <= i < n && q[i].start == start && q[i].path == path && q[i].bucket == b && q[i].depth == |path|
    decreases |path|
  {
    hide AltIndex;
    if path == [] {
      i := start;
    } else {
      var k := |path| - 1;
      var c := ReachesVia(H, hp, cur, if start == 0 then i1 else i2, path, b, k);
      assert path[k..] == [path[k]] && path[k..][1..] == [];
      var j := EntryOf(H, hp, slots, cur, i1, i2, shots, q, n, start, path[..k], c);
      assert Passed(H, hp, shots[j], q, j, path[k]) && shots[j] == cur;
      assert HasChild(H, hp, cur, q, j, path[k]);
      i :| j < i < |q| && ChildOf(H, hp, cur, q[j], path[k], q[i]);
      assert path == path[..k] + [path[k]];
    }
  }

  lemma EarlierFull(H: Hasher, hp: nat, slots: int, cur: seq<Bucket>, i1: int, i2: int, shots: seq<seq<Bucket>>,
                    q: seq<Entry>, n: int, start: int, path: seq<int>, b: int, s: int)
    requires Sound(H) && Same(shots, cur) && Ordered(i1, i2, q) && Swept(H, hp, slots, shots, q, n)
    requires Route(H, hp, slots, cur, i1, i2, start, path, b) && (n < |q| ==> |path| < q[n].depth) && 0 <= s < slots
    ensures ItemAt(cur, b, s)
  {
    hide Route, Ordered, ChildOf, HasChild;
    var i := EntryOf(H, hp, slots, cur, i1, i2, shots, q, n, start, path, b);
    assert Passed(H, hp, shots[i], q, i, s) && shots[i] == cur;
  }

  /** A search of an array that does not change finds a free slot exactly when there is one within reach. */
  lemma SearchExact(H: Hasher, hp: nat, slots: int, cur: seq<Bucket>, i1: int, i2: int, shots: seq<seq<Bucket>>,
                    q: seq<Entry>, n: int, found: bool, x: Entry)
    requires Sound(H) && 1 <= slots && Same(shots, cur) && Ordered(i1, i2, q) && Swept(H, hp, slots, shots, q, n)
    requires if found then Stopped(slots, shots, q, n, x) && Ended(H, hp, slots, i1, i2, shots, x) else n == |q|
    ensures found <==> !Exhausted(H, hp, slots, cur, i1, i2)
  {
    hide AltIndex, Power, Kept, Encode, Ordered, ChildOf, HasChild;
    if found {
      LeadsReaches(H, hp, shots, cur, if x.start == 0 then i1 else i2, x.path[..x.depth], x.bucket);
      assert Route(H, hp, slots, cur, i1, i2, x.start, x.path[..x.depth], x.bucket);
      assert shots[n] == cur && !ItemAt(cur, x.bucket, x.path[x.depth]);
    } else {
      forall b, s | InReach(H, hp, slots, cur, i1, i2, b) && 0 <= s < slots ensures ItemAt(cur, b, s) {
        var start, path :| Route(H, hp, slots, cur, i1, i2, start, path, b);
        EarlierFull(H, hp, slots, cur, i1, i2, shots, q, n, start, path, b, s);
      }
    }
  }

  // ---------- the path that a search gives ----------

  /** The outcome of a search: the entry found, and the path filled in for its number. */
  ghost predicate Found(H: Hasher, hp: nat, slots: int, i1: int, i2: int, v: View, q: seq<Entry>, n: int, x: Entry,
                        start: int, digits: seq<int>, path: seq<PathStep>)
    requires Sound(H) && 1 <= slots
  {
    && Ordered(i1, i2, q) && Swept(H, hp, slots, v.shots, q, n) && Stopped(slots, v.shots, q, n, x)
    && Ended(H, hp, slots, i1, i2, v.shots, x)
    && |digits| == x.depth + 1 && Encode(slots, start, digits) == x.code
    && (forall k :: 0 <= k < |digits| ==> 0 <= digits[k] < slots)
    && OnPath(H, hp, slots, i1, i2, path) && path[0].b == (if start == 0 then i1 else i2)
    && Retraced(H, v.later, digits, path)
  }

  /** A search that sees `v` may give `path`. */
  ghost predicate FoundBy(H: Hasher, hp: nat, slots: int, i1: int, i2: int, v: View, path: seq<PathStep>)
    requires Sound(H) && 1 <= slots
  {
    exists q, n, x, start, digits :: Found(H, hp, slots, i1, i2, v, q, n, x, start, digits, path)
  }

  /** A search that sees `v` may find no free slot. */
  ghost predicate Blind(H: Hasher, hp: nat, slots: int, i1: int, i2: int, v: View)
    requires Sound(H)
  {
    exists q :: Ordered(i1, i2, q) && Swept(H, hp, slots, v.shots, q, |q|)
  }

  /** No slot is on the path twice. */
  ghost predicate NoRepeat(path: seq<PathStep>) {
    forall m, n :: 0 <= m < n < |path| ==> path[m].b != path[n].b || path[m].s != path[n].s
  }

  /** When path codes fit into 16 bits, the path filled in goes through the slots of the entry found. */
  lemma FoundThrough(H: Hasher, hp: nat, slots: int, i1: int, i2: int, v: View, q: seq<Entry>, n: int, x: Entry,
                     start: int, digits: seq<int>, path: seq<PathStep>)
    requires Sound(H) && 1 <= slots && Found(H, hp, slots, i1, i2, v, q, n, x, start, digits, path)
    requires 2 * Pow(slots, MAX_BFS_PATH_LEN) <= WORD16
    ensures start == x.start && digits == x.path
  {
    hide Leads, Encode, Kept, Pow, Swept, Ordered, OnPath;
    CodeOf(slots, x, start, digits);
  }

  /** Nothing changes between the looks of a search. */
  ghost predicate Still(v: View, cur: seq<Bucket>) {
    Same(v.shots, cur) && Same(v.later, cur)
  }

  /** If moreover nothing changes, items can be moved along it, and it is as short as can be. */
  lemma FoundFits(H: Hasher, hp: nat, slots: int, i1: int, i2: int, v: View, cur: seq<Bucket>, q: seq<Entry>, n: int,
                  x: Entry, start: int, digits: seq<int>, path: seq<PathStep>)
    requires Sound(H) && 1 <= slots && Found(H, hp, slots, i1, i2, v, q, n, x, start, digits, path)
    requires 2 * Pow(slots, MAX_BFS_PATH_LEN) <= WORD16 && Still(v, cur)
    ensures Fits(H, cur, path) && |path| == |digits| && NoRepeat(path)
  {
    FoundThrough(H, hp, slots, i1, i2, v, q, n, x, start, digits, path);
    FoundEnds(H, hp, slots, i1, i2, v, cur, q, n, x, start, digits, path);
    hide AltIndex, Leads, Encode, Kept, Pow, Power, Swept, Ordered, Found;
    forall a: int, c: int | 0 <= a < c < |path| ensures path[a].b != path[c].b || path[a].s != path[c].s {
      if path[a].b == path[c].b && path[a].s == path[c].s {
        Shortcut(H, hp, slots, i1, i2, v, cur, q, n, x, start, digits, path, a, c);
      }
    }
  }

  /** The path ends in the free slot that the search has seen. */
  lemma FoundEnds(H: Hasher, hp: nat, slots: int, i1: int, i2: int, v: View, cur: seq<Bucket>, q: seq<Entry>, n: int,
                  x: Entry, start: int, digits: seq<int>, path: seq<PathStep>)
    requires Sound(H) && 1 <= slots && Found(H, hp, slots, i1, i2, v, q, n, x, start, digits, path) && Still(v, cur)
    requires start == x.start && digits == x.path
    ensures |path| == |digits| && Fits(H, cur, path) && path[|path| - 1].b == x.bucket
  {
    hide AltIndex, Encode, Kept, Pow, Power, Swept, Ordered;
    var d, m := x.depth, |path| - 1;
    LeadsReaches(H, hp, v.shots, cur, path[0].b, digits[..d], x.bucket);
    Along(H, hp, v.later, cur, digits, path, 0, m);
    assert digits[0..m] == digits[..m];
    var c := ReachesVia(H, hp, cur, path[0].b, digits[..d], x.bucket, m);
    assert digits[..d][..m] == digits[..m];
    ReachesOne(H, hp, cur, path[0].b, digits[..m], path[m].b, c);
    assert v.shots[n] == cur;
    assert m < |v.later| ==> v.later[m] == cur;
  }

  /** A path with the same slot twice would have been found earlier, without the detour. */
  lemma Shortcut(H: Hasher, hp: nat, slots: int, i1: int, i2: int, v: View, cur: seq<Bucket>, q: seq<Entry>, n: int,
                 x: Entry, start: int, digits: seq<int>, path: seq<PathStep>, a: int, c: int)
    requires Sound(H) && 1 <= slots && Found(H, hp, slots, i1, i2, v, q, n, x, start, digits, path) && Still(v, cur)
    requires start == x.start && digits == x.path && |path| == |digits| && Fits(H, cur, path)
    requires path[|path| - 1].b == x.bucket && 0 <= a < c < |path|
    ensures path[a].b != path[c].b || path[a].s != path[c].s
  {
    hide AltIndex, Leads, Encode, Kept, Pow, Power;
    var d := x.depth;
    if path[a].b == path[c].b && path[a].s == path[c].s && c < d {
      Along(H, hp, v.later, cur, digits, path, 0, a + 1);
      Along(H, hp, v.later, cur, digits, path, c + 1, d);
      assert path[a + 1].b == path[c + 1].b;
      var short := digits[0..a + 1] + digits[c + 1..d];
      ReachesJoin(H, hp, cur, path[0].b, digits[0..a + 1], path[a + 1].b, digits[c + 1..d], x.bucket);
      assert Route(H, hp, slots, cur, i1, i2, start, short, x.bucket);
      EarlierFull(H, hp, slots, cur, i1, i2, v.shots, q, n, start, short, x.bucket, x.path[d]);
    }
  }

  /**
   Turns the number that the search ends with into a path, looking at the buckets on the way once more; a slot found
   free ends the path.
   */
  method FillIn(H: Hasher, hp: nat, slots: int, i1: int, i2: int, code: int, depth: nat, later: seq<seq<Bucket>>)
    returns (path: seq<PathStep>, ghost start: int, ghost digits: seq<int>)
    requires Sound(H) && 1 <= slots && 0 <= i1 < Power(hp) && 0 <= i2 < Power(hp) && 0 <= code
    requires depth < |later| && Shots(hp, slots, later)
    ensures OnPath(H, hp, slots, i1, i2, path) && |digits| == depth + 1 && Through(path, digits)
    ensures Encode(slots, start, digits) == code && (forall n :: 0 <= n < |digits| ==> 0 <= digits[n] < slots)
    ensures path[0].b == (if start == 0 then i1 else i2) && Retraced(H, later, digits, path)
  {
    hide AltIndex, Power, Encode, Linked;
    var first, ds := Decode(slots, code, depth);
    start, digits := first, ds;
    var b := if first == 0 then i1 else i2;
    ghost var b0 := b;
    path := [];
    var i := 0;
    LinkedNone(H, hp);
    while true
      invariant 0 <= i == |path| <= depth && Through(path, digits) && 0 <= b < Power(hp) && Linked(H, hp, path)
      invariant forall n :: 0 <= n < i ==> 0 <= path[n].b < Power(hp)
      invariant (if i == 0 then b else path[0].b) == b0
      invariant i > 0 ==> b == AltIndex(hp, H.spread(path[i - 1].hash), path[i - 1].b)
      invariant Witnessed(H, later, path, i)
      decreases depth - i
    {
      assert Shot(hp, slots, later[i]);
      var slot := later[i][b][ds[i]];
      var hash := if slot.Free? then 0 else H.hash(slot.key);
      LinkedMore(H, hp, path, PathStep(b, ds[i], hash));
      path := path + [PathStep(b, ds[i], hash)];
      if slot.Free? || i == depth {
        return;
      }
      b := AltIndex(hp, H.spread(H.hash(slot.key)), b);
      i := i + 1;
    }
  }

  lemma LinkedNone(H: Hasher, hp: nat)
    requires Sound(H)
    ensures Linked(H, hp, [])
  {
  }

  /**
   The search for a cuckoo path.  Whatever other threads do meanwhile and however many slots there are, the result is a
   path from one of the two buckets.  When path codes fit into 16 bits, it is the one that the breadth-first search has
   found, and when nothing changes meanwhile, items can be moved along it.  A search of an array that does not change
   fails exactly when no free slot is within reach.
   */
  method PathSearch(H: Hasher, hp: nat, slots: int, i1: int, i2: int, v: View)
    returns (found: bool, path: seq<PathStep>, ghost x: Entry)
    requires Sound(H) && 0 <= i1 < Power(hp) && 0 <= i2 < Power(hp) && Seen(hp, slots, v)
    ensures found ==>
              OnPath(H, hp, slots, i1, i2, path) && |path| <= MAX_BFS_PATH_LEN
              && Ended(H, hp, slots, i1, i2, v.shots, x)
    ensures found && 2 * Pow(slots, MAX_BFS_PATH_LEN) <= WORD16 ==>
              && Through(path, x.path) && path[0].b == (if x.start == 0 then i1 else i2)
              && forall cur :: Still(v, cur) ==> Fits(H, cur, path) && |path| == |x.path| && NoRepeat(path)
    ensures forall cur :: Same(v.shots, cur) ==> (found <==> !Exhausted(H, hp, slots, cur, i1, i2))
    ensures if found then FoundBy(H, hp, slots, i1, i2, v, path) else Blind(H, hp, slots, i1, i2, v)
  {
    hide Shots, OnPath, Through, Leads, Reaches, Power, Encode, Kept, Fits, Pow, Capacity, Swept, Ordered, Stopped,
         Found, Exhausted, Retraced, NoRepeat;
    var y;
    ghost var q, n;
    found, y, q, n := SlotSearch(H, hp, slots, i1, i2, v.shots);
    x, path := y, [];
    forall cur | Same(v.shots, cur) ensures found <==> !Exhausted(H, hp, slots, cur, i1, i2) {
      SearchExact(H, hp, slots, cur, i1, i2, v.shots, q, n, found, y);
    }
    if found {
      ghost var start, digits;
      path, start, digits := FillIn(H, hp, slots, i1, i2, y.code, y.depth, v.later);
      PathSizes(H, hp, slots, i1, i2, path, digits);
      NowFound(H, hp, slots, i1, i2, v, q, n, x, start, digits, path);
      if 2 * Pow(slots, MAX_BFS_PATH_LEN) <= WORD16 {
        FoundThrough(H, hp, slots, i1, i2, v, q, n, x, start, digits, path);
        forall cur | Still(v, cur) ensures Fits(H, cur, path) && |path| == |x.path| && NoRepeat(path) {
          FoundFits(H, hp, slots, i1, i2, v, cur, q, n, x, start, digits, path);
        }
      }
    }
  }

  lemma NowFound(H: Hasher, hp: nat, slots: int, i1: int, i2: int, v: View, q: seq<Entry>, n: int, x: Entry,
                 start: int, digits: seq<int>, path: seq<PathStep>)
    requires Sound(H) && 1 <= slots && Ordered(i1, i2, q) && Swept(H, hp, slots, v.shots, q, n)
    requires Stopped(slots, v.shots, q, n, x) && Ended(H, hp, slots, i1, i2, v.shots, x)
    requires |digits| == x.depth + 1 && Encode(slots, start, digits) == x.code
    requires forall k :: 0 <= k < |digits| ==> 0 <= digits[k] < slots
    requires OnPath(H, hp, slots, i1, i2, path) && path[0].b == (if start == 0 then i1 else i2)
    requires Retraced(H, v.later, digits, path)
    ensures Found(H, hp, slots, i1, i2, v, q, n, x, start, digits, path)
    ensures FoundBy(H, hp, slots, i1, i2, v, path)
  {
    hide Swept, Ordered, Stopped, Ended, OnPath, Retraced, Encode;
  }

  lemma PathSizes(H: Hasher, hp: nat, slots: int, i1: int, i2: int, path: seq<PathStep>, digits: seq<int>)
    requires Sound(H) && OnPath(H, hp, slots, i1, i2, path) && Through(path, digits)
    ensures 1 <= |path| <= |digits|
  {
  }

  /** Codes that fit are read back. */
  lemma CodeOf(slots: int, x: Entry, start: int, digits: seq<int>)
    requires 1 <= slots && 2 * Pow(slots, MAX_BFS_PATH_LEN) <= WORD16
    requires Path(slots, x.start, x.path) && |x.path| == |digits| <= MAX_BFS_PATH_LEN
    requires Encode(slots, start, digits) == Kept(slots, x.start, x.path)
    requires forall n :: 0 <= n < |digits| ==> 0 <= digits[n] < slots
    ensures start == x.start && digits == x.path
  {
    CodesReadBack(slots);
    EncodeInjective(slots, start, digits, x.start, x.path);
  }
}
