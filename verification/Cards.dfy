/** Counting facts about finite sets used by the structures of the engine. */
module Cards {

  lemma Pick<T>(s: set<T>) returns (x: T)
    requires s != {}
    ensures x in s
  {
    x :| x in s;
  }

  lemma {:induction false} SubsetCard<T>(a: set<T>, b: set<T>)
    requires a <= b
    ensures |a| <= |b|
  {
    if a != {} {
      var x :| x in a;
      SubsetCard(a - {x}, b - {x});
    }
  }

  /** An injective map cannot have more keys than there are values to hit. */
  lemma {:induction false} InjectionCard<A, B>(m: map<A, B>, t: set<B>)
    requires forall a :: a in m ==> m[a] in t
    requires forall a, b :: a in m && b in m && a != b ==> m[a] != m[b]
    ensures |m.Keys| <= |t|
  {
    if m.Keys != {} {
      var a :| a in m.Keys;
      var rest := map x | x in m && x != a :: m[x];
      assert rest.Keys == m.Keys - {a};
      InjectionCard(rest, t - {m[a]});
    }
  }

  /** A sequence has no more elements than places. */
  lemma {:induction false} ElementsCard<T>(s: seq<T>, a: set<T>)
    requires forall x :: x in a ==> x in s
    ensures |a| <= |s|
  {
    if s == [] {
      assert a == {};
    } else {
      var k := |s| - 1;
      assert s == s[..k] + [s[k]];
      ElementsCard(s[..k], a - {s[k]});
      SubsetCard(a, (a - {s[k]}) + {s[k]});
    }
  }

  ghost function Below(n: int): (s: set<int>)
    requires 0 <= n
    ensures |s| == n && forall k :: k in s <==> 0 <= k < n
  {
    if n == 0 then {} else Below(n - 1) + {n - 1}
  }

  /** The greatest number up to `n` that meets `P`, as 0 does. */
  ghost function Greatest(P: int -> bool, n: nat): (k: nat)
    requires P(0)
    ensures k <= n && P(k) && forall m :: 0 <= m <= n && P(m) ==> m <= k
  {
    if P(n) then n else Greatest(P, n - 1)
  }
}
