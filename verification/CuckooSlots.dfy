/**
 Writing one slot of the cuckoo hash table: adding an item to a free slot, erasing an item, and the hop of an item from
 one of its buckets to the other.
 */
module CuckooSlots {
  import opened CuckooBuckets
  import opened Division

  ghost predicate Slotted(cur: seq<Bucket>, b: int, s: int) {
    0 <= b < |cur| && 0 <= s < |cur[b]|
  }

  /** The array with slot `s` of bucket `b` overwritten. */
  ghost function Written(cur: seq<Bucket>, b: int, s: int, x: Slot): (r: seq<Bucket>)
    requires Slotted(cur, b, s)
    ensures |r| == |cur| && forall c :: 0 <= c < |cur| ==> |r[c]| == |cur[c]|
  {
    cur[b := cur[b][s := x]]
  }

  lemma WrittenAt(cur: seq<Bucket>, b: int, s: int, x: Slot, c: int, t: int)
    requires Slotted(cur, b, s) && Slotted(cur, c, t)
    ensures Written(cur, b, s, x)[c][t] == if c == b && t == s then x else cur[c][t]
  {
  }

  lemma WrittenShown(cur: seq<Bucket>, past: seq<Bucket>, pending: set<int>, b: int, s: int, x: Slot, p: Place)
    requires Slotted(cur, b, s)
    ensures Shown(Written(cur, b, s, x), past, pending, p) <==> Shown(cur, past, pending, p)
    ensures Shown(cur, past, pending, p) ==>
              At(Written(cur, b, s, x), past, pending, p) == if p == New(b, s) then x else At(cur, past, pending, p)
  {
    hide Written;
    if p.New? && Slotted(cur, p.b, p.s) {
      WrittenAt(cur, b, s, x, p.b, p.s);
    }
  }

  // ---------- erasing ----------

  lemma EraseDistinct(cur: seq<Bucket>, past: seq<Bucket>, pending: set<int>, b: int, s: int)
    requires Slotted(cur, b, s) && Distinct(cur, past, pending)
    ensures Distinct(Written(cur, b, s, Free), past, pending)
  {
    hide Written, At;
    var cur': seq<Bucket> := Written(cur, b, s, Free);
    forall p, q | Shown(cur', past, pending, p) && Shown(cur', past, pending, q)
      ensures var x, y := At(cur', past, pending, p), At(cur', past, pending, q);
              (x.Full? && y.Full? && x.key == y.key ==> p == q)
    {
      WrittenShown(cur, past, pending, b, s, Free, p);
      WrittenShown(cur, past, pending, b, s, Free, q);
    }
  }

  /** Without the item in slot `s` of `b` the table holds what it held, except for the key of that item. */
  lemma EraseHolds(cur: seq<Bucket>, past: seq<Bucket>, pending: set<int>, b: int, s: int)
    requires Slotted(cur, b, s) && Distinct(cur, past, pending) && cur[b][s].Full?
    ensures forall x: Slot :: x.Full? ==>
              (Holds(Written(cur, b, s, Free), past, pending, x) <==>
                  Holds(cur, past, pending, x) && x.key != cur[b][s].key)
  {
    hide Written;
    var cur': seq<Bucket> := Written(cur, b, s, Free);
    var here := New(b, s);
    assert Shown(cur, past, pending, here);
    forall x: Slot | x.Full?
      ensures Holds(cur', past, pending, x) <==> Holds(cur, past, pending, x) && x.key != cur[b][s].key
    {
      if Holds(cur', past, pending, x) {
        var p :| Shown(cur', past, pending, p) && At(cur', past, pending, p) == x;
        WrittenShown(cur, past, pending, b, s, Free, p);
      }
      if Holds(cur, past, pending, x) && x.key != cur[b][s].key {
        var p :| Shown(cur, past, pending, p) && At(cur, past, pending, p) == x;
        WrittenShown(cur, past, pending, b, s, Free, p);
      }
    }
  }

  // ---------- adding ----------

  /** The key is nowhere in the table. */
  ghost predicate Missing(cur: seq<Bucket>, past: seq<Bucket>, pending: set<int>, key: int) {
    forall v :: !Holds(cur, past, pending, Full(key, v))
  }

  lemma MissingAt(cur: seq<Bucket>, past: seq<Bucket>, pending: set<int>, key: int, p: Place)
    requires Missing(cur, past, pending, key) && Shown(cur, past, pending, p) && At(cur, past, pending, p).Full?
    ensures At(cur, past, pending, p).key != key
  {
    var x := At(cur, past, pending, p);
    assert Holds(cur, past, pending, Full(x.key, x.value));
  }

  lemma AddDistinct(cur: seq<Bucket>, past: seq<Bucket>, pending: set<int>, b: int, s: int, key: int, value: int)
    requires Slotted(cur, b, s) && Distinct(cur, past, pending) && Missing(cur, past, pending, key)
    ensures Distinct(Written(cur, b, s, Full(key, value)), past, pending)
  {
    hide Written, At, Missing;
    var item := Full(key, value);
    var cur': seq<Bucket> := Written(cur, b, s, item);
    forall p, q | Shown(cur', past, pending, p) && Shown(cur', past, pending, q)
      ensures var x, y := At(cur', past, pending, p), At(cur', past, pending, q);
              (x.Full? && y.Full? && x.key == y.key ==> p == q)
    {
      WrittenShown(cur, past, pending, b, s, item, p);
      WrittenShown(cur, past, pending, b, s, item, q);
      if At(cur, past, pending, p).Full? {
        MissingAt(cur, past, pending, key, p);
      }
      if At(cur, past, pending, q).Full? {
        MissingAt(cur, past, pending, key, q);
      }
    }
  }

  /** With an item added in a free slot the table holds that item and what it held. */
  lemma AddHolds(cur: seq<Bucket>, past: seq<Bucket>, pending: set<int>, b: int, s: int, item: Slot)
    requires Slotted(cur, b, s) && cur[b][s] == Free
    ensures forall x: Slot :: x.Full? ==> (Holds(Written(cur, b, s, item), past, pending, x) <==>
              Holds(cur, past, pending, x) || x == item)
  {
    hide Written;
    var cur': seq<Bucket> := Written(cur, b, s, item);
    var here := New(b, s);
    assert Shown(cur, past, pending, here);
    WrittenShown(cur, past, pending, b, s, item, here);
    forall x: Slot | x.Full? ensures Holds(cur', past, pending, x) <==> Holds(cur, past, pending, x) || x == item {
      if Holds(cur', past, pending, x) {
        var p :| Shown(cur', past, pending, p) && At(cur', past, pending, p) == x;
        WrittenShown(cur, past, pending, b, s, item, p);
      }
      if Holds(cur, past, pending, x) {
        var p :| Shown(cur, past, pending, p) && At(cur, past, pending, p) == x;
        WrittenShown(cur, past, pending, b, s, item, p);
      }
    }
  }

  // ---------- what every write keeps ----------

  lemma WriteHomed(H: Hasher, hp: nat, cur: seq<Bucket>, b: int, s: int, x: Slot)
    requires Sound(H) && Slotted(cur, b, s) && NewHomed(H, hp, cur) && (x.Full? ==> Home(H, hp, x.key, b))
    ensures NewHomed(H, hp, Written(cur, b, s, x))
  {
    hide Written, Home;
    var cur': seq<Bucket> := Written(cur, b, s, x);
    forall c: int, t: int | 0 <= c < |cur'| && 0 <= t < |cur'[c]| && cur'[c][t].Full?
      ensures Home(H, hp, cur'[c][t].key, c)
    {
      WrittenAt(cur, b, s, x, c, t);
    }
  }

  lemma WritePastHomed(H: Hasher, hp: nat, cur: seq<Bucket>, past: seq<Bucket>, pending: set<int>, b: int, s: int,
                       x: Slot)
    requires Sound(H) && Slotted(cur, b, s) && Homed(H, hp, cur, past, pending)
    requires NewHomed(H, hp + 1, Written(cur, b, s, x))
    ensures Homed(H, hp, Written(cur, b, s, x), past, pending)
  {
    hide Written, Home;
    var cur': seq<Bucket> := Written(cur, b, s, x);
    forall p | Shown(cur', past, pending, p) && At(cur', past, pending, p).Full?
      ensures match p
              case New(c, _) => Home(H, hp + 1, At(cur', past, pending, p).key, c)
              case Old(c, _) => Home(H, hp, At(cur', past, pending, p).key, c)
    {
      assert p.New? ==> cur'[p.b][p.s].Full?;
      assert p.Old? ==> Shown(cur, past, pending, p) && At(cur, past, pending, p) == At(cur', past, pending, p);
    }
  }

  /** A write to a bucket whose lock has been migrated leaves the targets of the pending buckets empty. */
  lemma WriteBlank(cur: seq<Bucket>, past: seq<Bucket>, migrated: seq<bool>, b: int, s: int, x: Slot)
    requires |migrated| >= 1 && |past| % |migrated| == 0 && Slotted(cur, b, s) && migrated[b % |migrated|]
    requires Blank(cur, past, Pending(past, migrated))
    ensures Blank(Written(cur, b, s, x), past, Pending(past, migrated))
  {
    var cur': seq<Bucket> := Written(cur, b, s, x);
    forall c | c in Pending(past, migrated)
      ensures 0 <= c < |past| && |cur'| == 2 * |past| && Empty(cur'[c]) && Empty(cur'[c + |past|])
    {
      SameLock(c, |past|, |migrated|);
    }
  }

  // ---------- the hop ----------

  /** The array once the item in slot `fs` of `fb` has gone to slot `ts` of `tb`: copied first, then erased. */
  ghost function Hopped(cur: seq<Bucket>, fb: int, fs: int, tb: int, ts: int): (r: seq<Bucket>)
    requires Slotted(cur, fb, fs) && Slotted(cur, tb, ts)
  {
    Written(Written(cur, tb, ts, cur[fb][fs]), fb, fs, Free)
  }

  /** Erasing first and adding then comes to the same, and never shows a key twice. */
  lemma HoppedAgain(cur: seq<Bucket>, fb: int, fs: int, tb: int, ts: int)
    requires Slotted(cur, fb, fs) && Slotted(cur, tb, ts) && (fb != tb || fs != ts)
    ensures Hopped(cur, fb, fs, tb, ts) == Written(Written(cur, fb, fs, Free), tb, ts, cur[fb][fs])
  {
    var one, two := Hopped(cur, fb, fs, tb, ts), Written(Written(cur, fb, fs, Free), tb, ts, cur[fb][fs]);
    forall c | 0 <= c < |cur| ensures one[c] == two[c] {
      assert |one[c]| == |two[c]|;
    }
  }

  lemma HopKeeps(H: Hasher, hp: nat, cur: seq<Bucket>, past: seq<Bucket>, pending: set<int>, fb: int, fs: int,
                 tb: int, ts: int)
    requires Sound(H) && Slotted(cur, fb, fs) && Slotted(cur, tb, ts) && cur[tb][ts] == Free && cur[fb][fs].Full?
    requires Distinct(cur, past, pending) && NewHomed(H, hp, cur) && Home(H, hp, cur[fb][fs].key, tb)
    ensures var cur' := Hopped(cur, fb, fs, tb, ts);
            && Distinct(cur', past, pending) && NewHomed(H, hp, cur')
            && forall x: Slot :: x.Full? ==> (Holds(cur', past, pending, x) <==> Holds(cur, past, pending, x))
  {
    hide Written, Hopped, Home, Distinct, NewHomed, Holds;
    HoppedAgain(cur, fb, fs, tb, ts);
    var item := cur[fb][fs];
    var mid: seq<Bucket> := Written(cur, fb, fs, Free);
    WrittenAt(cur, fb, fs, Free, tb, ts);
    EraseDistinct(cur, past, pending, fb, fs);
    EraseHolds(cur, past, pending, fb, fs);
    AddDistinct(mid, past, pending, tb, ts, item.key, item.value);
    AddHolds(mid, past, pending, tb, ts, item);
    WriteHomed(H, hp, cur, fb, fs, Free);
    WriteHomed(H, hp, mid, tb, ts, item);
    HeldOnce(cur, past, pending, fb, fs);
  }

  /** What the table holds under the key of a slot is what the slot holds. */
  lemma HeldOnce(cur: seq<Bucket>, past: seq<Bucket>, pending: set<int>, b: int, s: int)
    requires Slotted(cur, b, s) && Distinct(cur, past, pending) && cur[b][s].Full?
    ensures forall x: Slot :: x.Full? && x.key == cur[b][s].key ==> (Holds(cur, past, pending, x) <==> x == cur[b][s])
  {
    assert Shown(cur, past, pending, New(b, s)) && At(cur, past, pending, New(b, s)) == cur[b][s];
  }

  /** The other bucket of a key, seen from one of its buckets, is one of its buckets. */
  lemma OtherHome(H: Hasher, hp: nat, key: int, b: int)
    requires Sound(H) && Home(H, hp, key, b)
    ensures 0 <= b && Home(H, hp, key, AltIndex(hp, H.mix(key), b))
  {
    hide AltIndex, Index, Power;
    HomesInRange(H, hp, key);
    AltAlt(hp, H.mix(key), First(H, hp, key));
  }
}
