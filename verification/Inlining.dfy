/**
 Inlining a rule: its row goes into the rows that refer to it, and the transposed rows follow.

 `t` is the transpose of `g`: row `c` of `t` lists the nodes whose rows mention `c`, once for each mention.  Rules that
 have been inlined are dead; their rows stay in the tables but count no more.
 */
module Inlining {
  import opened RuleGraph

  /** `t` is the transpose of `g`, with multiplicities, as far as nodes are not dead. */
  ghost predicate Exact(g: Table, t: Table, dead: set<int>) {
    && |t| == |g| && InRange(t, |g|)
    && forall c, r {:trigger Tally(t[c], r)} :: 0 <= c < |g| && c !in dead && 0 <= r < |g| ==>
         Tally(t[c], r) == if r in dead then 0 else Tally(g[r], c)
  }

  /** No row that counts mentions a dead rule. */
  ghost predicate Clean(g: Table, dead: set<int>) {
    forall r, c {:trigger Tally(g[r], c)} :: 0 <= r < |g| && r !in dead && c in dead ==> Tally(g[r], c) == 0
  }

  /** Table stand for what they stood for. */
  ghost predicate Same(g: Table, g': Table, m: Table) {
    && |g| == |g'| == |m| && InRange(g, |m|) && InRange(g', |m|)
    && forall r :: 0 <= r < |g| ==> (RowOf(g, r); RowOf(g', r); Flatten(g'[r], m) == Flatten(g[r], m))
  }

  /** What one inlining adds to the mentions of `c`. */
  ghost function Gain(body: seq<int>, id: int, c: int): (k: int) {
    Tally(body, c) - if c == id then 1 else 0
  }

  /** Each of the rows `hosts` has taken in the row `id` in place of one mention of it. */
  ghost predicate Poured(g: Table, g': Table, id: int, hosts: seq<int>) {
    && |g'| == |g| && 0 <= id < |g| && InRange(g', |g|) && g'[id] == g[id]
    && forall r, c {:trigger Tally(g'[r], c)} :: 0 <= r < |g| && 0 <= c < |g| ==>
         Tally(g'[r], c) == Tally(g[r], c) + Tally(hosts, r) * Gain(g[id], id, c)
  }

  lemma NothingPoured(g: Table, id: int)
    requires InRange(g, |g|) && 0 <= id < |g|
    ensures Poured(g, g, id, [])
  {
    forall r, c | 0 <= r < |g| && 0 <= c < |g|
      ensures Tally(g[r], c) == Tally(g[r], c) + Tally([], r) * Gain(g[id], id, c)
    {
      assert Tally([], r) == 0;
      Symmetric(Gain(g[id], id, c), 0);
    }
  }

  lemma MoreTimes(k: int, d: int)
    ensures (k + 1) * d == k * d + d
  {
  }

  /** The rows once row `host` has taken in row `id` in place of its first mention. */
  function PourInto(g: Table, id: int, host: int): (g': Table)
    requires 0 <= id < |g| && 0 <= host < |g| && Find(g[host], id) < |g[host]|
    ensures |g'| == |g|
  {
    g[host := Splice(g[host], Find(g[host], id), g[id])]
  }

  lemma PouredStep(g: Table, g': Table, id: int, hosts: seq<int>, host: int)
    requires Poured(g, g', id, hosts) && 0 <= host < |g| && host != id && Find(g'[host], id) < |g'[host]|
    ensures Poured(g, PourInto(g', id, host), id, hosts + [host])
  {
    var k := Find(g'[host], id);
    var g'' := PourInto(g', id, host);
    forall r, c | 0 <= r < |g| && 0 <= c < |g|
      ensures Tally(g''[r], c) == Tally(g[r], c) + Tally(hosts + [host], r) * Gain(g[id], id, c)
    {
      TallySplice(g'[host], k, g[id], c);
      MoreTimes(Tally(hosts, r), Gain(g[id], id, c));
      assert Tally(hosts + [host], r) == Tally(hosts, r) + if r == host then 1 else 0;
    }
    PourInRange(g', id, host);
  }

  lemma PourInRange(g: Table, id: int, host: int)
    requires InRange(g, |g|) && 0 <= id < |g| && 0 <= host < |g| && Find(g[host], id) < |g[host]|
    ensures InRange(PourInto(g, id, host), |g|)
  {
    var g', k := PourInto(g, id, host), Find(g[host], id);
    var row, body := g[host], g[id];
    forall i | 0 <= i < |g'[host]| ensures 0 <= g'[host][i] < |g| {
      assert g'[host][i] == if i < k then row[i] else if i < k + |body| then body[i - k] else row[i - |body| + 1];
    }
  }

  /** A host that has not had its turn yet still mentions the rule. */
  lemma HostReady(g: Table, t: Table, dead: set<int>, g': Table, id: int, i: int)
    requires Exact(g, t, dead) && 0 <= id < |g| && id !in dead && Tally(g[id], id) == 0 && 0 <= i < |t[id]|
    requires Poured(g, g', id, t[id][..i])
    ensures var host := t[id][i]; 0 <= host < |g| && host != id && host !in dead && Find(g'[host], id) < |g'[host]|
  {
    var host := t[id][i];
    TallyPrefix(t[id], i, host);
    assert Tally(t[id], id) == 0 && Tally(t[id], host) > 0;
    Found(g'[host], id);
  }

  /** A child that has not had its turn yet is still listed under the rule. */
  lemma ChildReady(g: Table, t: Table, dead: set<int>, t': Table, id: int, i: int)
    requires Exact(g, t, dead) && Clean(g, dead) && InRange(g, |g|) && 0 <= id < |g| && id !in dead
    requires Tally(g[id], id) == 0
    requires 0 <= i < |g[id]| && Poured(t, t', id, g[id][..i])
    ensures var child := g[id][i];
            0 <= child < |g| && child != id && child !in dead && Find(t'[child], id) < |t'[child]|
  {
    var child := g[id][i];
    TallyPrefix(g[id], i, child);
    assert Tally(g[id], child) > 0;
    assert Tally(t[id], id) == 0;
    assert Tally(t[child], id) == Tally(g[id], child);
    Found(t'[child], id);
  }

  /** Once all hosts and all children have had their turn, the tables are transposes again, and the rule is dead. */
  lemma Inlined(g: Table, t: Table, dead: set<int>, g': Table, t': Table, id: int)
    requires Exact(g, t, dead) && Clean(g, dead) && 0 <= id < |g| && id !in dead && Tally(g[id], id) == 0
    requires Poured(g, g', id, t[id]) && Poured(t, t', id, g[id])
    ensures Exact(g', t', dead + {id}) && Clean(g', dead + {id})
  {
    assert Tally(t[id], id) == 0;
    forall c, r | 0 <= c < |g| && c !in dead + {id} && 0 <= r < |g|
      ensures Tally(t'[c], r) == if r in dead + {id} then 0 else Tally(g'[r], c)
    {
      assert Tally(t[c], r) == if r in dead then 0 else Tally(g[r], c);
      assert Tally(t[id], r) == if r in dead then 0 else Tally(g[r], id);
      Symmetric(Tally(t[id], r), Tally(g[id], c));
    }
    InlinedClean(g, t, dead, g', id);
  }

  lemma Symmetric(a: int, b: int)
    ensures a * b == b * a && a * (0 - 1) == -a && 0 * a == 0
  {
  }

  lemma InlinedClean(g: Table, t: Table, dead: set<int>, g': Table, id: int)
    requires Exact(g, t, dead) && Clean(g, dead) && 0 <= id < |g| && id !in dead && Tally(g[id], id) == 0
    requires Poured(g, g', id, t[id])
    ensures Clean(g', dead + {id})
  {
    forall r, c | 0 <= r < |g'| && r !in dead + {id} && c in dead + {id} ensures Tally(g'[r], c) == 0 {
      if 0 <= c < |g| {
        assert Tally(t[id], r) == Tally(g[r], id);
        assert Tally(g[id], c) == 0;
        Symmetric(Tally(t[id], r), 1);
      } else {
        TallyIn(g'[r], c);
      }
    }
  }

  // ---------- what becomes of the rows ----------

  /** The row with its first `k` mentions of `id` replaced by `body`. */
  ghost function Filled(row: seq<int>, id: int, body: seq<int>, k: nat): (r: seq<int>) {
    if row == [] || k == 0 then row
    else if row[0] == id then body + Filled(row[1..], id, body, k - 1)
    else [row[0]] + Filled(row[1..], id, body, k)
  }

  /** Putting the body in place of the first mention left replaces one mention more. */
  lemma {:induction false} FilledStep(row: seq<int>, id: int, body: seq<int>, k: nat)
    requires Tally(body, id) == 0 && k < Tally(row, id)
    ensures var r := Filled(row, id, body, k);
            Find(r, id) < |r| && Splice(r, Find(r, id), body) == Filled(row, id, body, k + 1)
  {
    hide Filled, Find, Splice, Tally;
    TallyNone(id);
    FilledCons(row, id, body, k);
    FilledCons(row, id, body, k + 1);
    if row[0] == id && k == 0 {
      SpliceFirst(row, id, body);
    } else {
      var front := if row[0] == id then body else [row[0]];
      var k' := if row[0] == id then k - 1 else k;
      TallyFirst(row, id);
      FilledStep(row[1..], id, body, k');
      var rest := Filled(row[1..], id, body, k');
      Absent(body, row[0], id);
      FindBehind(front, rest, id);
      SpliceBehind(front, rest, Find(rest, id), body);
    }
  }

  lemma TallyNone(x: int)
    ensures Tally([], x) == 0
  {
  }

  lemma Absent(body: seq<int>, y: int, x: int)
    requires Tally(body, x) == 0
    ensures x !in body && (y != x ==> x !in [y])
  {
    TallyIn(body, x);
  }

  lemma TallyFirst(row: seq<int>, x: int)
    requires row != []
    ensures Tally(row, x) == Tally(row[1..], x) + if row[0] == x then 1 else 0
  {
    assert row == [row[0]] + row[1..];
  }

  lemma FilledCons(row: seq<int>, id: int, body: seq<int>, k: nat)
    requires row != []
    ensures row[0] == id && k > 0 ==> Filled(row, id, body, k) == body + Filled(row[1..], id, body, k - 1)
    ensures row[0] != id ==> Filled(row, id, body, k) == [row[0]] + Filled(row[1..], id, body, k)
    ensures k == 0 ==> Filled(row, id, body, k) == row && Filled(row[1..], id, body, k) == row[1..]
  {
    assert row == [row[0]] + row[1..];
  }

  lemma SpliceFirst(row: seq<int>, id: int, body: seq<int>)
    requires row != [] && row[0] == id
    ensures Find(row, id) == 0 && Splice(row, 0, body) == body + row[1..]
  {
  }

  lemma SpliceBehind(a: seq<int>, b: seq<int>, k: int, body: seq<int>)
    requires 0 <= k < |b|
    ensures Splice(a + b, |a| + k, body) == a + Splice(b, k, body)
  {
    assert (a + b)[..|a| + k] == a + b[..k] && (a + b)[|a| + k + 1..] == b[k + 1..];
  }

  lemma {:induction false} FindBehind(a: seq<int>, b: seq<int>, x: int)
    requires x !in a
    ensures Find(a + b, x) == |a| + Find(b, x)
  {
    if a == [] {
      assert a + b == b;
    } else {
      FindBehind(a[1..], b, x);
      assert (a + b)[1..] == a[1..] + b;
    }
  }

  lemma {:induction false} FilledSize(row: seq<int>, id: int, body: seq<int>, k: nat)
    requires k <= Tally(row, id)
    ensures |Filled(row, id, body, k)| == |row| + k * (|body| - 1)
  {
    if row != [] && k > 0 {
      assert row == [row[0]] + row[1..];
      if row[0] == id {
        FilledSize(row[1..], id, body, k - 1);
        MoreTimes(k - 1, |body| - 1);
      } else {
        FilledSize(row[1..], id, body, k);
      }
    }
  }

  /** Each row has taken in row `id` as often as `hosts` lists it, in place of its first mentions of it. */
  ghost predicate Embedded(g: Table, g': Table, id: int, hosts: seq<int>) {
    && |g'| == |g| && 0 <= id < |g|
    && forall r :: 0 <= r < |g| ==> g'[r] == Filled(g[r], id, g[id], Tally(hosts, r))
  }

  lemma EmbeddedStep(g: Table, g': Table, id: int, hosts: seq<int>, host: int)
    requires Embedded(g, g', id, hosts) && 0 <= host < |g| && host != id && g'[id] == g[id] && Tally(g[id], id) == 0
    requires Tally(hosts, host) < Tally(g[host], id) && Find(g'[host], id) < |g'[host]|
    ensures Embedded(g, PourInto(g', id, host), id, hosts + [host])
  {
    hide Filled;
    FilledStep(g[host], id, g[id], Tally(hosts, host));
    forall r | 0 <= r < |g| ensures Tally(hosts + [host], r) == Tally(hosts, r) + if r == host then 1 else 0 {
    }
  }

  /** The rows once every row that is not dead has taken in row `id` for each of its mentions. */
  ghost function InlineRule(g: Table, dead: set<int>, id: int): (g': Table)
    requires 0 <= id < |g|
    ensures |g'| == |g| && forall r :: 0 <= r < |g| ==> g'[r] == InlineAt(g, dead, id, r)
  {
    seq(|g|, r requires 0 <= r < |g| => InlineAt(g, dead, id, r))
  }

  ghost function InlineAt(g: Table, dead: set<int>, id: int, r: int): (row: seq<int>)
    requires 0 <= id < |g| && 0 <= r < |g|
  {
    if r in dead then g[r] else Filled(g[r], id, g[id], Tally(g[r], id))
  }

  lemma EmbeddedAll(g: Table, t: Table, dead: set<int>, g': Table, id: int)
    requires Exact(g, t, dead) && 0 <= id < |g| && id !in dead && Embedded(g, g', id, t[id])
    ensures g' == InlineRule(g, dead, id)
  {
    var two := InlineRule(g, dead, id);
    forall r | 0 <= r < |g| ensures g'[r] == two[r] {
      assert Tally(t[id], r) == if r in dead then 0 else Tally(g[r], id);
    }
  }

  // ---------- meanings and ranks ----------

  lemma PourSame(g: Table, g': Table, m: Table, id: int, host: int)
    requires Same(g, g', m) && 0 <= id < |g| && g'[id] == g[id] && m[id] == (RowOf(g, id); Flatten(g[id], m))
    requires 0 <= host < |g| && Find(g'[host], id) < |g'[host]|
    ensures Same(g, PourInto(g', id, host), m)
  {
    PourInRange(g', id, host);
    RowOf(g', host);
    RowOf(g', id);
    FlattenSplice(g'[host], Find(g'[host], id), g'[id], m);
  }

  lemma SameSelf(g: Table, V: int, m: Table)
    requires Solves(g, V, m)
    ensures Same(g, g, m)
  {
    hide Flatten;
  }

  lemma SameSolves(g: Table, g': Table, V: int, m: Table)
    requires Solves(g, V, m) && Same(g, g', m)
    ensures Solves(g', V, m)
  {
    hide Flatten;
    forall s | 0 <= s < |g'| ensures m[s] == if s < V then [s] else (RowOf(g', s); Flatten(g'[s], m)) {
      RowOf(g, s);
    }
  }

  lemma PourRanked(g: Table, V: int, h: seq<nat>, id: int, host: int)
    requires Ranked(g, V, h) && V <= id < |g| && 0 <= host < |g| && Find(g[host], id) < |g[host]|
    ensures Ranked(PourInto(g, id, host), V, h)
  {
    PourInRange(g, id, host);
    var g', k := PourInto(g, id, host), Find(g[host], id);
    var row, body := g[host], g[id];
    forall i | V <= host && 0 <= i < |g'[host]| && V <= g'[host][i] ensures h[g'[host][i]] < h[host] {
      assert g'[host][i] == if i < k then row[i] else if i < k + |body| then body[i - k] else row[i - |body| + 1];
      assert h[row[k]] < h[host];
    }
  }

  lemma RankedNotSelf(g: Table, V: int, h: seq<nat>, id: int)
    requires Ranked(g, V, h) && V <= id < |g|
    ensures Tally(g[id], id) == 0
  {
    TallyIn(g[id], id);
  }

  // ---------- the two loops of an inlining ----------

  /** After some of its hosts have taken in row `id`: who has done so, that nothing else has changed, no circle. */
  ghost predicate HostsSoFar(g: Table, g': Table, hosts: seq<int>, V: int, m: Table, h: seq<nat>, id: int) {
    && Poured(g, g', id, hosts) && Same(g, g', m) && Ranked(g', V, h) && g'[id] == g[id] && Embedded(g, g', id, hosts)
    && Tally(g[id], id) == 0 && V <= id && m[id] == (RowOf(g, id); Flatten(g[id], m))
  }

  lemma HostsBegin(g: Table, t: Table, V: int, m: Table, h: seq<nat>, id: int)
    requires Ranked(g, V, h) && Solves(g, V, m) && |t| == |g| && 0 <= V <= id < |g|
    ensures HostsSoFar(g, g, t[id][..0], V, m, h, id)
  {
    hide Flatten;
    NothingPoured(g, id);
    RankedNotSelf(g, V, h, id);
    RowOf(g, id);
    assert t[id][..0] == [];
  }

  lemma HostsNext(g: Table, t: Table, dead: set<int>, g': Table, V: int, m: Table, h: seq<nat>, id: int, j: int)
    requires Exact(g, t, dead) && 0 <= id < |g| && id !in dead && 0 <= j < |t[id]|
    requires HostsSoFar(g, g', t[id][..j], V, m, h, id)
    ensures var host := t[id][j];
            && 0 <= host < |g| == |g'| && host != id && host !in dead
            && Find(g'[host], id) < |g'[host]|
    ensures HostsSoFar(g, PourInto(g', id, t[id][j]), t[id][..j + 1], V, m, h, id)
  {
    hide Poured, Same, Ranked, Flatten, Embedded;
    HostReady(g, t, dead, g', id, j);
    var host := t[id][j];
    HostLeft(g, t, dead, id, j);
    EmbeddedStep(g, g', id, t[id][..j], host);
    PouredStep(g, g', id, t[id][..j], host);
    PourSame(g, g', m, id, host);
    PourRanked(g', V, h, id, host);
    assert t[id][..j + 1] == t[id][..j] + [host];
  }

  lemma HostLeft(g: Table, t: Table, dead: set<int>, id: int, j: int)
    requires Exact(g, t, dead) && 0 <= id < |g| && id !in dead && 0 <= j < |t[id]|
    ensures var host := t[id][j]; 0 <= host < |g| && Tally(t[id][..j], host) < Tally(g[host], id)
  {
    var host := t[id][j];
    TallyPrefix(t[id], j, host);
    TallyIn(t[id], host);
    assert Tally(t[id], host) == if host in dead then 0 else Tally(g[host], id);
  }

  lemma HostsRow(g: Table, g': Table, hosts: seq<int>, V: int, m: Table, h: seq<nat>, id: int)
    requires HostsSoFar(g, g', hosts, V, m, h, id)
    ensures |g'| == |g| && 0 <= id < |g| && g'[id] == g[id] && Poured(g, g', id, hosts) && Same(g, g', m)
    ensures Ranked(g', V, h) && Embedded(g, g', id, hosts)
  {
  }

  lemma PouredSizes(t: Table, t': Table, id: int, hosts: seq<int>)
    requires Poured(t, t', id, hosts)
    ensures |t'| == |t| && 0 <= id < |t| && t'[id] == t[id]
  {
  }

  lemma ChildrenBegin(t: Table, row: seq<int>, id: int)
    requires InRange(t, |t|) && 0 <= id < |t|
    ensures Poured(t, t, id, row[..0])
  {
    NothingPoured(t, id);
    assert row[..0] == [];
  }

  lemma ChildrenNext(g: Table, t: Table, dead: set<int>, t': Table, id: int, j: int)
    requires Exact(g, t, dead) && Clean(g, dead) && InRange(g, |g|) && 0 <= id < |g| && id !in dead
    requires Tally(g[id], id) == 0
    requires 0 <= j < |g[id]| && Poured(t, t', id, g[id][..j])
    ensures var child := g[id][j];
            && 0 <= child < |g| == |t'| && child != id && child !in dead
            && Find(t'[child], id) < |t'[child]|
    ensures Poured(t, PourInto(t', id, g[id][j]), id, g[id][..j + 1])
  {
    hide Clean;
    ChildReady(g, t, dead, t', id, j);
    PouredStep(t, t', id, g[id][..j], g[id][j]);
    assert g[id][..j + 1] == g[id][..j] + [g[id][j]];
  }
}
