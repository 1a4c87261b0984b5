/**
 The probe of the pair hash need not end: insertions and deletions alone, with never more than one record in the table,
 can use up every never-used cell of a table of any size.
 */
module ProbeExhaustion {
  import opened RecordTable
  import opened HashTable
  import opened Division

  /** The inverse of the multiplier modulo the machine word. */
  const INVERSE: int := 284617813

  /** The cell that the pair with `t` on the left and 0 on the right goes to. */
  lemma HomeOf(t: int, n: int)
    requires 0 <= t && 1 <= n && WORD % n == 0
    ensures Home(Pair(t, 0), n) == (LPRIME * t) % n
  {
    var a := LPRIME * t;
    var q, r := a / WORD, a % WORD;
    assert LPRIME * (t * WORD) == q * (WORD * WORD) + r * WORD by {
      assert LPRIME * (t * WORD) == a * WORD;
    }
    ModUnique(LPRIME * (t * WORD), WORD * WORD, q, r * WORD);
    ModUnique(r * WORD, WORD, r, 0);
    var c := WORD / n;
    assert a == (q * c) * n + r by {
      assert WORD == c * n;
      assert q * (c * n) == (q * c) * n;
    }
    SameRemainder(q * c, n, r);
  }

  lemma SameRemainder(q: int, n: int, r: int)
    requires 1 <= n
    ensures (q * n + r) % n == r % n
  {
    assert q * n + r == n * (q + r / n) + r % n;
    ModUnique(q * n + r, n, q + r / n, r % n);
  }

  lemma Inverted(p: int, i: int, m: int, w: int, c: int, k: int, q: int, n: int, t: int)
    requires p * i == m * w + 1 && w == c * n && i * k == q * n + t
    ensures p * t == n * ((m * c) * k - p * q) + k
  {
    assert p * t == p * (i * k) - p * (q * n);
    assert p * (i * k) == (p * i) * k == (m * (c * n)) * k + k;
    assert (m * (c * n)) * k == n * ((m * c) * k);
    assert p * (q * n) == n * (p * q);
  }

  /** Every cell is the first one probed for some pair. */
  lemma EveryCell(k: int, n: int) returns (t: int)
    requires 0 <= k < n && WORD % n == 0
    ensures 0 <= t < n && Home(Pair(t, 0), n) == k
  {
    var a := INVERSE * k;
    t := a % n;
    HomeOf(t, n);
    var c, q := WORD / n, a / n;
    assert LPRIME * INVERSE == 50884707404086842 * WORD + 1;
    Inverted(LPRIME, INVERSE, 50884707404086842, WORD, c, k, q, n, t);
    ModUnique(LPRIME * t, n, (50884707404086842 * c) * k - LPRIME * q, k);
  }

  /** The table after records with the pairs `ps` have each been inserted and deleted again, one after the other. */
  ghost function Worn(n: int, ps: seq<Pair>): (table: seq<int>)
    requires 1 <= n
    ensures |table| == n && forall k :: 0 <= k < n ==> table[k] < 0
    ensures forall k :: 0 <= k < n ==> (table[k] == DELETED <==> exists i :: 0 <= i < |ps| && Home(ps[i], n) == k)
  {
    if ps == [] then EmptyTable(n) else Worn(n, ps[..|ps| - 1])[Home(ps[|ps| - 1], n) := DELETED]
  }

  /** In such a table a record goes to the first cell of its probe, and its deletion marks that cell. */
  lemma WornStep(n: int, ps: seq<Pair>, p: Pair, k: int, id: int)
    requires 1 <= n && 0 <= k < n
    requires forall j :: 0 <= j < Dist(Home(p, n), k, n) ==> Worn(n, ps)[Step(Home(p, n), j, n)] >= 0
    ensures Worn(n, ps + [p]) == Worn(n, ps)[k := id][k := DELETED]
  {
    assert Worn(n, ps)[Step(Home(p, n), 0, n)] < 0;
    assert (ps + [p])[..|ps|] == ps;
  }

  /** A table of any size, a power of two, can be worn out: no never-used cell is left, and no record is filed. */
  lemma WornOut(n: int) returns (ps: seq<Pair>)
    requires 1 <= n && WORD % n == 0
    ensures |ps| == n && Spare(Worn(n, ps)) == {} && Holds(Worn(n, ps), [], [], {})
  {
    ps := seq(n, t => Pair(t, 0));
    var table := Worn(n, ps);
    forall k | 0 <= k < n ensures table[k] == DELETED {
      var t := EveryCell(k, n);
      assert Home(ps[t], n) == k;
    }
  }
}
