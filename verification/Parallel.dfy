/**
 The parallel compressor: in a fixed number of turns, all frequent pairs of neighbours get a new rule at once.

 Pairs are spread over buckets by their first symbol.  Each bucket counts its pairs and gives new numbers to the
 frequent ones; the numbers continue behind the rows there are, bucket after bucket.  Then every row, the rows of older
 rules included, is rewritten from left to right, and the rows of the new rules are appended.  So an older rule may come
 to mention a newer one: numbers say nothing about which rule is above which.

 The workers of a turn share nothing between the points where they are joined, so each is a call of its own here.
 */
module ParallelRepair {
  import opened RecordTable
  import opened RuleGraph
  import opened CsrRows
  import opened RuleTables
  import Cards
  import opened TextThread
  import opened CsrCompress

  /** Both symbols of a pair in one word. */
  function Key(left: int, right: int): (k: int)
    requires 0 <= left && 0 <= right < WORD
    ensures k / WORD == left && k % WORD == right && 0 <= k
  {
    left * WORD + right
  }

  // ---------- counting ----------

  /** Counts the keys and keeps those that occur often enough. */
  method ProcessPairs(pairs: seq<int>, threshold: int) returns (table: map<int, int>)
    ensures forall k :: k in table <==> k in pairs && Tally(pairs, k) >= threshold
    ensures forall k :: k in table ==> table[k] == Tally(pairs, k)
  {
    table := map[];
    var i := 0;
    while i < |pairs|
      invariant 0 <= i <= |pairs| && forall k :: k in table <==> k in pairs[..i]
      invariant forall k :: k in table ==> table[k] == Tally(pairs[..i], k)
    {
      ghost var seen := pairs[..i];
      assert pairs[..i + 1] == seen + [pairs[i]];
      if pairs[i] in table {
        table := table[pairs[i] := table[pairs[i]] + 1];
      } else {
        TallyIn(seen, pairs[i]);
        table := table[pairs[i] := 1];
      }
      i := i + 1;
    }
    assert pairs[..i] == pairs;
    table := map k | k in table && table[k] >= threshold :: table[k];
  }

  // ---------- new numbers ----------

  /** The rules of one bucket in the order in which they got their numbers. */
  ghost predicate Numbered(convert: map<int, int>, order: seq<int>, start: int) {
    && convert.Keys == (set k | k in order)
    && (forall j :: 0 <= j < |order| ==> order[j] in convert && convert[order[j]] == start + j)
  }

  /** `order` lists the keys of the table. */
  ghost predicate Lists(order: seq<int>, table: map<int, int>) {
    |order| == |table| && forall k :: k in order <==> k in table
  }

  /** The row of the rule for a key. */
  function KeyRow(key: int): (row: seq<int>) {
    [key / WORD, key % WORD]
  }

  ghost function KeyRows(order: seq<int>): (rows: Table)
    ensures |rows| == |order| && forall j :: 0 <= j < |order| ==> rows[j] == KeyRow(order[j])
  {
    seq(|order|, j requires 0 <= j < |order| => KeyRow(order[j]))
  }

  /** Rows that begin at `starts`, each ending where the next begins. */
  ghost predicate Opened(starts: seq<int>, e: seq<int>, rows: Table) {
    if rows == [] then starts == [] && e == [] else Csr(starts, e) && Cells(starts, e) == rows
  }

  lemma OpenedMore(starts: seq<int>, e: seq<int>, rows: Table, row: seq<int>)
    requires Opened(starts, e, rows)
    ensures Opened(starts + [|e|], e + row, rows + [row])
  {
    if rows == [] {
      assert starts + [|e|] == [0];
      var a, b := Cells([0], e + row), [row];
      assert a[0] == b[0];
    } else {
      CellsClose(starts, e);
      CellsMore(starts + [|e|], e, row);
      assert [] + row == row;
      assert Widened(rows + [[]], row) == rows + [row];
    }
  }

  /** Gives the keys of a table their numbers, in whatever order the table lists them, and writes down their rows. */
  method PrepareNewId(table: map<int, int>, start: int)
    returns (convert: map<int, int>, roleVertex: seq<int>, roleEdge: seq<int>, ghost order: seq<int>)
    ensures Numbered(convert, order, start) && convert.Keys == table.Keys && Lists(order, table)
    ensures Opened(roleVertex, roleEdge, KeyRows(order))
  {
    hide Numbered, Opened, Lists, KeyRows;
    convert, roleVertex, roleEdge, order := map[], [], [], [];
    var rest, id, offset := table.Keys, start, 0;
    NoneNumbered(start);
    while rest != {}
      invariant rest <= table.Keys && table.Keys - rest == convert.Keys && rest !! convert.Keys
      invariant Numbered(convert, order, start) && id == start + |order| && offset == |roleEdge|
                && |order| + |rest| == |table.Keys|
      invariant Opened(roleVertex, roleEdge, KeyRows(order))
      decreases |rest|
    {
      ghost var some := Cards.Pick(rest);
      assert some in rest;
      var key :| key in rest;
      OpenedMore(roleVertex, roleEdge, KeyRows(order), KeyRow(key));
      KeyRowsMore(order, key);
      NumberedMore(convert, order, start, key);
      convert := convert[key := id];
      id := id + 1;
      roleVertex := roleVertex + [offset];
      offset := offset + 2;
      roleEdge := roleEdge + [key / WORD, key % WORD];
      order := order + [key];
      rest := rest - {key};
    }
    NumberedLists(convert, order, start, table);
  }

  lemma NoneNumbered(start: int)
    ensures Numbered(map[], [], start) && KeyRows([]) == [] && Opened([], [], [])
  {
  }

  lemma KeyRowsMore(order: seq<int>, key: int)
    ensures KeyRows(order + [key]) == KeyRows(order) + [KeyRow(key)]
  {
  }

  lemma NumberedLists(convert: map<int, int>, order: seq<int>, start: int, table: map<int, int>)
    requires Numbered(convert, order, start) && convert.Keys == table.Keys && |order| == |table.Keys|
    ensures Lists(order, table)
  {
    assert |table| == |table.Keys|;
    forall k ensures k in order <==> k in table {
      assert k in convert.Keys <==> k in order;
    }
  }

  lemma NumberedMore(convert: map<int, int>, order: seq<int>, start: int, key: int)
    requires Numbered(convert, order, start) && key !in convert
    ensures Numbered(convert[key := start + |order|], order + [key], start)
  {
    var convert', order' := convert[key := start + |order|], order + [key];
    forall k ensures k in convert' <==> k in order' {
    }
    forall j | 0 <= j < |order'| ensures order'[j] in convert' && convert'[order'[j]] == start + j {
      if j < |order| {
        assert order[j] in convert;
      }
    }
  }

  // ---------- rewriting ----------

  type Tables = seq<map<int, int>>

  /** The pair of two symbols has a number. */
  predicate Listed(converts: Tables, left: int, right: int)
    requires |converts| >= 1 && 0 <= left && 0 <= right < WORD
  {
    Key(left, right) in converts[left % |converts|]
  }

  ghost predicate Symbols(row: seq<int>) {
    RowIn(row, WORD)
  }

  /** The row with pairs replaced by their numbers, from left to right. */
  ghost function Rewrite(row: seq<int>, converts: Tables): (r: seq<int>)
    requires |converts| >= 1 && Symbols(row)
    ensures r == [] <==> row == []
  {
    if |row| < 2 then row
    else if Listed(converts, row[0], row[1]) then [converts[row[0] % |converts|][Key(row[0], row[1])]]
      + Rewrite(row[2..], converts)
    else [row[0]] + Rewrite(row[1..], converts)
  }

  /** Rewrites the edges from `from` up to `to`. */
  method RewriteRow(edges: seq<int>, from: int, to: int, tables: Tables, converts: Tables) returns (row: seq<int>)
    requires |converts| == |tables| >= 1 && (forall b :: 0 <= b < |tables| ==> tables[b].Keys == converts[b].Keys)
    requires 0 <= from <= to <= |edges| && Symbols(edges)
    ensures row == Rewrite(edges[from..to], converts)
  {
    hide Rewrite, Key;
    row := [];
    var idx := from;
    while idx < to - 1
      invariant from <= idx <= to && Rewrite(edges[from..to], converts) == row + Rewrite(edges[idx..to], converts)
    {
      ghost var rest := edges[idx..to];
      RewriteSteps(rest, converts);
      var table := edges[idx] % |tables|;
      var key := Key(edges[idx], edges[idx + 1]);
      if key in tables[table] {
        assert rest[2..] == edges[idx + 2..to];
        row := row + [converts[table][key]];
        idx := idx + 1;
      } else {
        assert rest[1..] == edges[idx + 1..to];
        row := row + [edges[idx]];
      }
      idx := idx + 1;
    }
    RewriteSteps(edges[idx..to], converts);
    if idx < to {
      assert edges[idx..to] == [edges[to - 1]];
      row := row + [edges[to - 1]];
    }
  }

  /**
   The pieces of `row` that the symbols of `out` stand for: single symbols and listed pairs, and no symbol that was
   copied forms a listed pair with the symbol behind it in the row.
   */
  ghost predicate Tiles(row: seq<int>, out: seq<int>, converts: Tables, pieces: Table)
    requires |converts| >= 1
  {
    && |pieces| == |out| && Joined(pieces) == row
    && (forall i :: 0 <= i < |out| ==> TileAt(out[i], converts, pieces[i]))
    && (forall i {:trigger pieces[i]} :: 0 <= i < |out| - 1 && |pieces[i]| == 1 ==>
          Apart(converts, pieces[i], pieces[i + 1]))
  }

  /** The symbol `y` is the only symbol of its piece, or the number of the pair that the piece is. */
  ghost predicate TileAt(y: int, converts: Tables, piece: seq<int>)
    requires |converts| >= 1
  {
    && Symbols(piece)
    && (piece == [y] || (|piece| == 2 && Listed(converts, piece[0], piece[1])
                         && y == converts[piece[0] % |converts|][Key(piece[0], piece[1])]))
  }

  ghost predicate Apart(converts: Tables, piece: seq<int>, next: seq<int>)
    requires |converts| >= 1
  {
    |piece| >= 1 && |next| >= 1 && Symbols(piece) && Symbols(next) && !Listed(converts, piece[0], next[0])
  }

  ghost function Joined(pieces: Table): (row: seq<int>) {
    if pieces == [] then [] else pieces[0] + Joined(pieces[1..])
  }

  /** A row has one such rewriting, the one from left to right. */
  lemma RewriteTiles(row: seq<int>, out: seq<int>, converts: Tables)
    requires |converts| >= 1 && Symbols(row)
    ensures (exists pieces :: Tiles(row, out, converts, pieces)) <==> out == Rewrite(row, converts)
  {
    var pieces := Tiling(row, converts);
    forall pieces | Tiles(row, out, converts, pieces) ensures out == Rewrite(row, converts) {
      TilingOnly(row, out, converts, pieces);
    }
  }

  lemma {:induction false} Tiling(row: seq<int>, converts: Tables) returns (pieces: Table)
    requires |converts| >= 1 && Symbols(row)
    ensures Tiles(row, Rewrite(row, converts), converts, pieces)
    ensures row != [] ==> |pieces| >= 1 && |pieces[0]| >= 1 && pieces[0][0] == row[0]
  {
    hide Rewrite, Key;
    RewriteSteps(row, converts);
    if row == [] {
      pieces := [];
    } else if |row| == 1 {
      pieces := [row];
      assert pieces[1..] == [] && row == [row[0]];
      assert Joined(pieces) == row + Joined([]);
      assert TileAt(row[0], converts, pieces[0]);
      assert Tiles(row, row, converts, pieces);
    } else {
      var k := if Listed(converts, row[0], row[1]) then 2 else 1;
      var rest := Tiling(row[k..], converts);
      pieces := [row[..k]] + rest;
      TilingMore(row, k, converts, rest);
    }
  }

  lemma TilingMore(row: seq<int>, k: int, converts: Tables, rest: Table)
    requires |converts| >= 1 && Symbols(row) && |row| >= 2 && k == if Listed(converts, row[0], row[1]) then 2 else 1
    requires Tiles(row[k..], Rewrite(row[k..], converts), converts, rest)
    requires row[k..] != [] ==> |rest| >= 1 && |rest[0]| >= 1 && rest[0][0] == row[k]
    ensures Tiles(row, Rewrite(row, converts), converts, [row[..k]] + rest)
  {
    hide Rewrite, Key;
    RewriteSteps(row, converts);
    var pieces, out := [row[..k]] + rest, Rewrite(row, converts);
    assert pieces[1..] == rest && row == row[..k] + row[k..];
    assert Symbols(row[..k]);
    assert TileAt(out[0], converts, pieces[0]);
    forall i | 0 <= i < |out| - 1 && |pieces[i]| == 1 ensures Apart(converts, pieces[i], pieces[i + 1]) {
      if i > 0 {
        assert pieces[i] == rest[i - 1];
      } else {
        assert TileAt(Rewrite(row[k..], converts)[0], converts, rest[0]);
      }
    }
  }

  lemma {:induction false} TilingOnly(row: seq<int>, out: seq<int>, converts: Tables, pieces: Table)
    requires |converts| >= 1 && Symbols(row) && Tiles(row, out, converts, pieces)
    ensures out == Rewrite(row, converts)
    decreases |pieces|
  {
    hide Rewrite, Key;
    RewriteSteps(row, converts);
    if pieces != [] {
      var k := |pieces[0]|;
      assert TileAt(out[0], converts, pieces[0]);
      assert row[..k] == pieces[0] && row[k..] == Joined(pieces[1..]);
      assert Tiles(row[k..], out[1..], converts, pieces[1..]) by {
        forall i | 0 <= i < |out[1..]| - 1 && |pieces[1..][i]| == 1
          ensures Apart(converts, pieces[1..][i], pieces[1..][i + 1])
        {
          assert pieces[1..][i] == pieces[i + 1];
        }
      }
      TilingOnly(row[k..], out[1..], converts, pieces[1..]);
      if k == 1 && |pieces| > 1 {
        assert Apart(converts, pieces[0], pieces[1]);
        assert row[1] == pieces[1][0];
      }
    }
  }

  ghost function RewriteAll(rows: Table, converts: Tables): (r: Table)
    requires |converts| >= 1 && forall i :: 0 <= i < |rows| ==> Symbols(rows[i])
    ensures |r| == |rows| && forall i :: 0 <= i < |rows| ==> r[i] == Rewrite(rows[i], converts)
  {
    seq(|rows|, i requires 0 <= i < |rows| => Rewrite(rows[i], converts))
  }

  /** The starts of the rows of a bucket, counted from its first edge. */
  function Rebased(vs: seq<int>): (r: seq<int>)
    requires |vs| >= 1
    ensures |r| == |vs| && forall i :: 0 <= i < |vs| ==> r[i] == vs[i] - vs[0]
  {
    seq(|vs|, i requires 0 <= i < |vs| => vs[i] - vs[0])
  }

  /** Rewrites the rows of one bucket; the last row ends with the edges of the bucket. */
  method Replace(edges: seq<int>, vertices0: seq<int>, tables: Tables, converts: Tables,
                 ghost rows: Table)
    returns (newVertices: seq<int>, newEdges: seq<int>)
    requires |converts| == |tables| >= 1 && (forall b :: 0 <= b < |tables| ==> tables[b].Keys == converts[b].Keys)
    requires |vertices0| >= 1 && |edges| >= 1 && Symbols(edges)
    requires Csr(Rebased(vertices0), edges) && rows == Cells(Rebased(vertices0), edges)
    ensures (forall i :: 0 <= i < |rows| ==> Symbols(rows[i]))
    ensures Opened(newVertices, newEdges, RewriteAll(rows, converts))
  {
    hide Opened, Rewrite, Csr;
    newVertices, newEdges := [], [];
    var starts := Rebased(vertices0);
    RowsHaveSymbols(starts, edges, rows);
    ghost var all := RewriteAll(rows, converts);
    NothingOpened();
    var v := 0;
    while v < |starts| - 1
      invariant 0 <= v <= |starts| - 1 && Opened(newVertices, newEdges, all[..v])
    {
      Bounds(starts, edges);
      var row := RewriteRow(edges, starts[v], starts[v + 1], tables, converts);
      OpenedMore(newVertices, newEdges, all[..v], row);
      assert all[..v + 1] == all[..v] + [row];
      newVertices := newVertices + [|newEdges|];
      newEdges := newEdges + row;
      v := v + 1;
    }
    Bounds(starts, edges);
    var row := RewriteRow(edges, starts[v], |edges|, tables, converts);
    OpenedMore(newVertices, newEdges, all[..v], row);
    assert all == all[..v] + [row];
    newVertices := newVertices + [|newEdges|];
    newEdges := newEdges + row;
  }

  lemma NothingOpened()
    ensures Opened([], [], [])
  {
  }

  lemma Bounds(starts: seq<int>, edges: seq<int>)
    requires Csr(starts, edges)
    ensures forall i :: 0 <= i < |starts| ==> 0 <= starts[i] <= |edges|
    ensures forall i :: 0 <= i < |starts| - 1 ==> starts[i] <= starts[i + 1]
  {
  }

  lemma RowsHaveSymbols(starts: seq<int>, edges: seq<int>, rows: Table)
    requires Csr(starts, edges) && rows == Cells(starts, edges) && Symbols(edges)
    ensures forall i :: 0 <= i < |rows| ==> Symbols(rows[i])
  {
  }

  // ---------- what a turn does to the graph ----------

  /** Every number in the tables is the row of the rule for its key. */
  ghost predicate Right(converts: Tables, keys: seq<int>, first: int) {
    forall b, k {:trigger converts[b][k]} :: 0 <= b < |converts| && k in converts[b] ==>
      first <= converts[b][k] < first + |keys| && keys[converts[b][k] - first] == k
  }

  /** Every rule has its number in some table. */
  ghost predicate AllIssued(converts: Tables, keys: seq<int>, first: int) {
    forall j :: 0 <= j < |keys| ==> Issued(converts, keys[j], first + j)
  }

  ghost predicate Issued(converts: Tables, k: int, number: int) {
    exists b :: 0 <= b < |converts| && k in converts[b] && converts[b][k] == number
  }

  /** The keys are pairs of nodes. */
  ghost predicate KeysIn(keys: seq<int>, n: int) {
    forall j :: 0 <= j < |keys| ==> 0 <= keys[j] / WORD < n && 0 <= keys[j] % WORD < n
  }

  /** The graph after a turn: rewritten rows, then the rows of the new rules. */
  ghost function Turned(g: Table, converts: Tables, keys: seq<int>): (g': Table)
    requires |converts| >= 1 && forall i :: 0 <= i < |g| ==> Symbols(g[i])
    ensures |g'| == |g| + |keys|
    ensures forall i :: 0 <= i < |g| ==> g'[i] == Rewrite(g[i], converts)
    ensures forall j :: |g| <= j < |g'| ==> g'[j] == KeyRow(keys[j - |g|])
  {
    RewriteAll(g, converts) + KeyRows(keys)
  }

  /** The meanings after a turn. */
  ghost function NewMeaning(m: Table, keys: seq<int>): (m': Table)
    requires KeysIn(keys, |m|)
    ensures |m'| == |m| + |keys| && (forall s :: 0 <= s < |m| ==> m'[s] == m[s])
    ensures forall s :: |m| <= s < |m'| ==> m'[s] == m[keys[s - |m|] / WORD] + m[keys[s - |m|] % WORD]
  {
    m + seq(|keys|, j requires 0 <= j < |keys| => m[keys[j] / WORD] + m[keys[j] % WORD])
  }

  /** Every symbol of a rewritten row is a symbol of the row, or the rule for two neighbours in it. */
  lemma {:induction false} RewriteMember(row: seq<int>, converts: Tables, keys: seq<int>, first: int, i: int)
    requires |converts| >= 1 && Symbols(row) && Right(converts, keys, first) && 0 <= i < |Rewrite(row, converts)|
    ensures var y := Rewrite(row, converts)[i];
            y in row || (first <= y < first + |keys| && keys[y - first] / WORD in row && keys[y - first] % WORD in row)
  {
    if |row| >= 2 {
      if Listed(converts, row[0], row[1]) {
        var y := converts[row[0] % |converts|][Key(row[0], row[1])];
        if i > 0 {
          RewriteMember(row[2..], converts, keys, first, i - 1);
          assert Rewrite(row, converts)[i] == Rewrite(row[2..], converts)[i - 1];
        }
      } else if i > 0 {
        RewriteMember(row[1..], converts, keys, first, i - 1);
        assert Rewrite(row, converts)[i] == Rewrite(row[1..], converts)[i - 1];
      }
    }
  }

  lemma RewriteRange(row: seq<int>, converts: Tables, keys: seq<int>, first: int)
    requires |converts| >= 1 && Symbols(row) && Right(converts, keys, first) && RowIn(row, first)
    ensures RowIn(Rewrite(row, converts), first + |keys|)
  {
    forall i | 0 <= i < |Rewrite(row, converts)| ensures 0 <= Rewrite(row, converts)[i] < first + |keys| {
      RewriteMember(row, converts, keys, first, i);
    }
  }

  /** A rewritten row stands for what it stood for. */
  lemma {:induction false} RewriteMeans(row: seq<int>, converts: Tables, keys: seq<int>, m: Table)
    requires |converts| >= 1 && Symbols(row) && RowIn(row, |m|) && Right(converts, keys, |m|) && KeysIn(keys, |m|)
    ensures RowIn(Rewrite(row, converts), |m| + |keys|)
            && Flatten(Rewrite(row, converts), NewMeaning(m, keys)) == Flatten(row, m)
  {
    hide Rewrite, Flatten, Key;
    RewriteRange(row, converts, keys, |m|);
    RewriteSteps(row, converts);
    var m' := NewMeaning(m, keys);
    if row == [] {
      FlattenNone(m);
      FlattenNone(m');
    } else if |row| == 1 {
      assert row == [row[0]];
      FlattenOne(row[0], m);
      FlattenOne(row[0], m');
    } else if Listed(converts, row[0], row[1]) {
      var y := converts[row[0] % |converts|][Key(row[0], row[1])];
      RewriteMeans(row[2..], converts, keys, m);
      FlattenCons(y, Rewrite(row[2..], converts), m');
      FlattenCons(row[1], row[2..], m);
      FlattenCons(row[0], [row[1]] + row[2..], m);
      assert row == [row[0]] + ([row[1]] + row[2..]);
    } else {
      RewriteMeans(row[1..], converts, keys, m);
      FlattenCons(row[0], Rewrite(row[1..], converts), m');
      FlattenCons(row[0], row[1..], m);
      assert row == [row[0]] + row[1..];
    }
  }

  lemma RewriteSteps(row: seq<int>, converts: Tables)
    requires |converts| >= 1 && Symbols(row)
    ensures |row| < 2 ==> Rewrite(row, converts) == row
    ensures |row| >= 2 && Listed(converts, row[0], row[1]) ==>
              (Rewrite(row, converts) == [converts[row[0] % |converts|][Key(row[0], row[1])]]
                 + Rewrite(row[2..], converts))
    ensures |row| >= 2 && !Listed(converts, row[0], row[1]) ==>
              Rewrite(row, converts) == [row[0]] + Rewrite(row[1..], converts)
  {
  }

  lemma FlattenNone(m: Table)
    ensures Flatten([], m) == []
  {
  }

  lemma FlattenCons(x: int, rest: seq<int>, m: Table)
    requires 0 <= x < |m| && RowIn(rest, |m|)
    ensures RowIn([x] + rest, |m|) && Flatten([x] + rest, m) == m[x] + Flatten(rest, m)
  {
    assert ([x] + rest)[1..] == rest;
  }

  /** A turn keeps what every row stands for. */
  lemma TurnSolves(g: Table, V: int, converts: Tables, keys: seq<int>, m: Table)
    requires |converts| >= 1 && (forall i :: 0 <= i < |g| ==> Symbols(g[i])) && 0 <= V <= |g|
    requires Solves(g, V, m) && Right(converts, keys, |g|) && KeysIn(keys, |g|)
    ensures Solves(Turned(g, converts, keys), V, NewMeaning(m, keys))
    ensures forall r :: 0 <= r < |g| ==> TurnKeeps(g, converts, keys, m, r)
  {
    hide Rewrite, Flatten;
    var g', m' := Turned(g, converts, keys), NewMeaning(m, keys);
    TurnRange(g, converts, keys);
    forall r | 0 <= r < |g| ensures TurnKeeps(g, converts, keys, m, r) {
      RowOf(g, r);
      RewriteMeans(g[r], converts, keys, m);
    }
    forall s | 0 <= s < |g'| ensures m'[s] == if s < V then [s] else (RowOf(g', s); Flatten(g'[s], m')) {
      if V <= s < |g| {
        assert TurnKeeps(g, converts, keys, m, s);
      } else if s >= |g| {
        NewRuleMeans(keys, m, s);
      }
    }
  }

  ghost predicate TurnKeeps(g: Table, converts: Tables, keys: seq<int>, m: Table, r: int)
    requires |converts| >= 1 && (forall i :: 0 <= i < |g| ==> Symbols(g[i])) && 0 <= r < |g| == |m| && KeysIn(keys, |m|)
  {
    var g', m' := Turned(g, converts, keys), NewMeaning(m, keys);
    RowIn(g[r], |m|) && RowIn(g'[r], |m'|) && Flatten(g'[r], m') == Flatten(g[r], m)
  }

  lemma NewRuleMeans(keys: seq<int>, m: Table, s: int)
    requires KeysIn(keys, |m|) && |m| <= s < |m| + |keys|
    ensures var row, m' := KeyRow(keys[s - |m|]), NewMeaning(m, keys); RowIn(row, |m'|) && Flatten(row, m') == m'[s]
  {
    var k, m' := keys[s - |m|], NewMeaning(m, keys);
    FlattenConcat([k / WORD], [k % WORD], m');
    FlattenOne(k / WORD, m');
    FlattenOne(k % WORD, m');
    assert [k / WORD] + [k % WORD] == KeyRow(k);
  }

  lemma TurnRange(g: Table, converts: Tables, keys: seq<int>)
    requires |converts| >= 1 && (forall i :: 0 <= i < |g| ==> Symbols(g[i])) && InRange(g, |g|)
    requires Right(converts, keys, |g|) && KeysIn(keys, |g|)
    ensures InRange(Turned(g, converts, keys), |g| + |keys|)
  {
    hide Rewrite;
    var g' := Turned(g, converts, keys);
    forall r, i | 0 <= r < |g'| && 0 <= i < |g'[r]| ensures 0 <= g'[r][i] < |g| + |keys| {
      if r < |g| {
        RowOf(g, r);
        RewriteRange(g[r], converts, keys, |g|);
      }
    }
  }

  // ---------- the rules stay without circles ----------

  /** The rank of a node, below all ranks when it is a vertex. */
  ghost function RankOf(h: seq<nat>, V: int, s: int): (k: int)
    requires 0 <= s < |h|
  {
    if s >= V then h[s] else -1
  }

  /** Old ranks move apart, and a new rule goes between its two symbols and every row that has both. */
  ghost function NewRank(h: seq<nat>, V: int, keys: seq<int>): (h': seq<nat>)
    requires KeysIn(keys, |h|)
    ensures |h'| == |h| + |keys| && forall s :: 0 <= s < |h| ==> h'[s] == 2 * h[s] + 1
    ensures forall s :: |h| <= s < |h'| ==>
              h'[s] == 2 * Greater(RankOf(h, V, keys[s - |h|] / WORD), RankOf(h, V, keys[s - |h|] % WORD)) + 2
  {
    seq(|h|, s requires 0 <= s < |h| => 2 * h[s] + 1) +
    seq(|keys|, j requires 0 <= j < |keys| => 2 * Greater(RankOf(h, V, keys[j] / WORD), RankOf(h, V, keys[j] % WORD))
          + 2)
  }

  function Greater(a: int, b: int): (r: int)
    ensures r >= a && r >= b && (r == a || r == b)
  {
    if a > b then a else b
  }

  lemma TurnRanked(g: Table, V: int, converts: Tables, keys: seq<int>, h: seq<nat>)
    requires |converts| >= 1 && (forall i :: 0 <= i < |g| ==> Symbols(g[i]))
    requires Ranked(g, V, h) && Right(converts, keys, |g|) && KeysIn(keys, |g|) && V <= |g|
    ensures Ranked(Turned(g, converts, keys), V, NewRank(h, V, keys))
  {
    hide Rewrite;
    TurnRange(g, converts, keys);
    var g', h' := Turned(g, converts, keys), NewRank(h, V, keys);
    forall r, i | V <= r < |g'| && 0 <= i < |g'[r]| && V <= g'[r][i] ensures h'[g'[r][i]] < h'[r] {
      if r < |g| {
        OldRowRanked(g, V, converts, keys, h, r, i);
      }
    }
  }

  lemma OldRowRanked(g: Table, V: int, converts: Tables, keys: seq<int>, h: seq<nat>, r: int, i: int)
    requires |converts| >= 1 && (forall j :: 0 <= j < |g| ==> Symbols(g[j]))
    requires Ranked(g, V, h) && Right(converts, keys, |g|) && KeysIn(keys, |g|)
    requires V <= r < |g| && 0 <= i < |Rewrite(g[r], converts)| && V <= Rewrite(g[r], converts)[i]
    ensures var y := Rewrite(g[r], converts)[i]; y < |g| + |keys| && NewRank(h, V, keys)[y] < NewRank(h, V, keys)[r]
  {
    RewriteMember(g[r], converts, keys, |g|, i);
    hide Rewrite;
    var row := g[r];
    forall x | x in row ensures 0 <= x < |g| && RankOf(h, V, x) < h[r] {
      var k :| 0 <= k < |row| && row[k] == x;
      assert 0 <= g[r][k] < |g|;
    }
  }

  // ---------- gathering the pairs ----------

  type Buckets = seq<seq<int>>

  /** Every bucket holds keys of nodes whose first symbol belongs to it. */
  ghost predicate Fed(buckets: Buckets, n: int) {
    forall b, i {:trigger buckets[b][i]} :: 0 <= b < |buckets| && 0 <= i < |buckets[b]| ==>
      var k := buckets[b][i]; 0 <= k / WORD < n && 0 <= k % WORD < n && (k / WORD) % |buckets| == b
  }

  /** How often the pair is in its bucket. */
  ghost function Gathered(buckets: Buckets, left: int, right: int): (k: nat)
    requires |buckets| >= 1 && 0 <= left && 0 <= right < WORD
  {
    Tally(buckets[left % |buckets|], Key(left, right))
  }

  /** `after` holds what `before` held, and each pair of the rows as often as it occurs in them. */
  ghost predicate Adds(before: Buckets, after: Buckets, rows: Table) {
    && |before| == |after| >= 1
    && forall left, right {:trigger Gathered(after, left, right)} :: 0 <= left && 0 <= right < WORD ==>
         Gathered(after, left, right) == Gathered(before, left, right) + RowCount(rows, Pair(left, right))
  }

  ghost function Total(buckets: Buckets): (n: nat) {
    if buckets == [] then 0 else Total(buckets[..|buckets| - 1]) + |buckets[|buckets| - 1]|
  }

  lemma {:induction false} TotalMore(buckets: Buckets, b: int, k: int)
    requires 0 <= b < |buckets|
    ensures Total(buckets[b := buckets[b] + [k]]) == Total(buckets) + 1
  {
    var n := |buckets| - 1;
    var buckets' := buckets[b := buckets[b] + [k]];
    if b < n {
      TotalMore(buckets[..n], b, k);
      assert buckets'[..n] == buckets[..n][b := buckets[..n][b] + [k]];
    } else {
      assert buckets'[..n] == buckets[..n];
    }
  }

  lemma KeySame(l: int, r: int, l': int, r': int)
    requires 0 <= l && 0 <= r < WORD && 0 <= l' && 0 <= r' < WORD
    ensures Key(l, r) == Key(l', r') <==> l == l' && r == r'
  {
  }

  /** One pair more. */
  lemma GatherStep(buckets: Buckets, l: int, r: int, n: int)
    requires |buckets| >= 1 && 0 <= l < n <= WORD && 0 <= r < n && Fed(buckets, n)
    ensures var b := l % |buckets|;
            var buckets' := buckets[b := buckets[b] + [Key(l, r)]];
            && Fed(buckets', n) && Total(buckets') == Total(buckets) + 1
            && forall left, right {:trigger Gathered(buckets', left, right)} :: 0 <= left && 0 <= right < WORD ==>
                 Gathered(buckets', left, right) == Gathered(buckets, left, right) + if left == l && right == r then 1
                 else 0
  {
    hide Key, Total;
    var b := l % |buckets|;
    var buckets' := buckets[b := buckets[b] + [Key(l, r)]];
    TotalMore(buckets, b, Key(l, r));
    forall left, right | 0 <= left && 0 <= right < WORD
      ensures Gathered(buckets', left, right) == Gathered(buckets, left, right) + if left == l && right == r then 1
              else 0
    {
      KeySame(left, right, l, r);
    }
  }

  /** The pairs of neighbours in the first `k` places of a row. */
  ghost predicate AddsRow(before: Buckets, after: Buckets, row: seq<int>) {
    && |before| == |after| >= 1
    && forall left, right {:trigger Gathered(after, left, right)} :: 0 <= left && 0 <= right < WORD ==>
         Gathered(after, left, right) == Gathered(before, left, right) + Count(row, Pair(left, right))
  }

  method GatherRow(edges: seq<int>, from: int, to: int, buckets0: Buckets, ghost n: int) returns (buckets: Buckets)
    requires |buckets0| >= 1 && 0 <= from <= to <= |edges| && RowIn(edges, n) && n <= WORD && Fed(buckets0, n)
    ensures AddsRow(buckets0, buckets, edges[from..to]) && Fed(buckets, n)
    ensures Total(buckets) <= Total(buckets0) + (to - from)
  {
    hide Fed, Gathered, Total, Count, Key;
    buckets := buckets0;
    var idx := from;
    CountNone();
    while idx < to - 1
      invariant from <= idx && (idx < to || idx == from) && |buckets| == |buckets0| && Fed(buckets, n)
      invariant AddsRow(buckets0, buckets, if from < to then edges[from..idx + 1] else [])
      invariant Total(buckets) == Total(buckets0) + (idx - from)
    {
      var l, r := edges[idx], edges[idx + 1];
      GatherStep(buckets, l, r, n);
      ghost var seen, next := edges[from..idx + 1], edges[from..idx + 2];
      assert next == seen + [r];
      forall x: Pair ensures Count(next, x) == Count(seen, x) + if x == Pair(l, r) then 1 else 0 {
        CountLast(seen, r, x);
      }
      buckets := buckets[l % |buckets| := buckets[l % |buckets|] + [Key(l, r)]];
      idx := idx + 1;
    }
  }

  lemma CountNone()
    ensures forall x :: Count([], x) == 0
    ensures forall t, x :: |t| == 1 ==> Count(t, x) == 0
  {
  }

  /** Gathers the pairs of all rows. */
  method Gather(v: seq<int>, e: seq<int>, buckets0: Buckets, ghost n: int) returns (buckets: Buckets)
    requires |buckets0| >= 1 && Csr(v, e) && v[|v| - 1] == |e| && RowIn(e, n) && n <= WORD && Fed(buckets0, n)
    requires |v| >= 2 ==> v[1] > 0
    ensures Adds(buckets0, buckets, RowsOf(v, e)) && Fed(buckets, n) && Total(buckets) <= Total(buckets0) + |e|
  {
    hide Fed, Gathered, Total, Count, RowCount;
    ghost var rows := RowsOf(v, e);
    buckets := buckets0;
    var i := 0;
    RowCountNone();
    assert rows[..0] == [];
    while i < |v| - 1
      invariant 0 <= i <= |v| - 1 && |buckets| == |buckets0| && Fed(buckets, n)
      invariant Adds(buckets0, buckets, rows[..i]) && Total(buckets) <= Total(buckets0) + v[i]
    {
      ghost var before := buckets;
      buckets := GatherRow(e, v[i], v[i + 1], buckets, n);
      assert rows[..i + 1] == rows[..i] + [rows[i]] && rows[i] == e[v[i]..v[i + 1]];
      forall x: Pair ensures RowCount(rows[..i + 1], x) == RowCount(rows[..i], x) + Count(rows[i], x) {
        RowCountMore(rows[..i], rows[i], x);
      }
      i := i + 1;
    }
    assert rows[..i] == rows;
  }

  lemma RowCountNone()
    ensures forall x :: RowCount([], x) == 0
  {
  }

  lemma RowCountMore(rows: Table, row: seq<int>, x: Pair)
    ensures RowCount(rows + [row], x) == RowCount(rows, x) + Count(row, x)
  {
    assert (rows + [row])[..|rows + [row]| - 1] == rows;
  }

  // ---------- the steps of a turn ----------

  /** The tables hold exactly the keys that are in their bucket often enough. */
  ghost predicate Frequent(buckets: Buckets, tables: Tables, threshold: int) {
    |tables| == |buckets| && forall b, k {:trigger k in tables[b]} :: 0 <= b < |buckets| ==>
      (k in tables[b] <==> k in buckets[b] && Tally(buckets[b], k) >= threshold)
  }

  method CountAll(buckets: Buckets, threshold: int) returns (tables: Tables)
    ensures Frequent(buckets, tables, threshold)
  {
    tables := [];
    var b := 0;
    while b < |buckets|
      invariant 0 <= b <= |buckets| && Frequent(buckets[..b], tables, threshold)
    {
      var table := ProcessPairs(buckets[b], threshold);
      tables := tables + [table];
      b := b + 1;
    }
    assert buckets[..b] == buckets;
  }

  ghost function Chain(orders: seq<seq<int>>): (r: seq<int>) {
    if orders == [] then [] else Chain(orders[..|orders| - 1]) + orders[|orders| - 1]
  }

  lemma ChainMore(orders: seq<seq<int>>, order: seq<int>)
    ensures Chain(orders + [order]) == Chain(orders) + order
  {
    assert (orders + [order])[..|orders + [order]| - 1] == orders;
  }

  /** Rows of all buckets so far. */
  ghost predicate Roles(roleVs: seq<seq<int>>, roleEs: seq<seq<int>>, orders: seq<seq<int>>) {
    && |roleVs| == |roleEs| == |orders|
    && forall b :: 0 <= b < |orders| ==> Opened(roleVs[b], roleEs[b], KeyRows(orders[b]))
  }

  lemma RightMore(converts: Tables, keys: seq<int>, first: int, convert: map<int, int>, order: seq<int>)
    requires Right(converts, keys, first) && Numbered(convert, order, first + |keys|)
    ensures Right(converts + [convert], keys + order, first)
  {
    var converts', keys' := converts + [convert], keys + order;
    forall b, k | 0 <= b < |converts'| && k in converts'[b]
      ensures first <= converts'[b][k] < first + |keys'| && keys'[converts'[b][k] - first] == k
    {
      if b == |converts| {
        assert k in order;
        var j :| 0 <= j < |order| && order[j] == k;
        assert convert[order[j]] == first + |keys| + j;
      } else {
        assert keys[converts[b][k] - first] == k;
      }
    }
  }

  lemma IssuedMore(converts: Tables, keys: seq<int>, first: int, convert: map<int, int>, order: seq<int>)
    requires AllIssued(converts, keys, first) && Numbered(convert, order, first + |keys|)
    ensures AllIssued(converts + [convert], keys + order, first)
  {
    var converts', keys' := converts + [convert], keys + order;
    forall j | 0 <= j < |keys'| ensures Issued(converts', keys'[j], first + j) {
      if j < |keys| {
        assert Issued(converts, keys[j], first + j);
        var b :| 0 <= b < |converts| && keys[j] in converts[b] && converts[b][keys[j]] == first + j;
        assert converts'[b] == converts[b];
      } else {
        assert converts'[|converts|] == convert && order[j - |keys|] in convert;
      }
    }
  }

  /** Numbers for all buckets: each bucket starts where the one before it ends. */
  method NumberAll(tables: Tables, maxId: int)
    returns (converts: Tables, roleVs: seq<seq<int>>, roleEs: seq<seq<int>>, ghost orders: seq<seq<int>>)
    ensures |converts| == |tables| == |orders|
    ensures forall b :: 0 <= b < |tables| ==> converts[b].Keys == tables[b].Keys && Lists(orders[b], tables[b])
    ensures Right(converts, Chain(orders), maxId + 1) && Roles(roleVs, roleEs, orders)
    ensures AllIssued(converts, Chain(orders), maxId + 1)
  {
    hide Numbered, Right, AllIssued, Opened, Lists, Roles, Chain;
    converts, roleVs, roleEs, orders := [], [], [], [];
    var start, b := maxId + 1, 0;
    NoneRight(start);
    while b < |tables|
      invariant 0 <= b <= |tables| && |converts| == |orders| == b && start == maxId + 1 + |Chain(orders)|
      invariant forall c :: 0 <= c < b ==> converts[c].Keys == tables[c].Keys && Lists(orders[c], tables[c])
      invariant Right(converts, Chain(orders), maxId + 1) && Roles(roleVs, roleEs, orders)
      invariant AllIssued(converts, Chain(orders), maxId + 1)
    {
      var convert, roleV, roleE, order := PrepareNewId(tables[b], start);
      ListsSize(order, tables[b]);
      RightMore(converts, Chain(orders), maxId + 1, convert, order);
      IssuedMore(converts, Chain(orders), maxId + 1, convert, order);
      ChainMore(orders, order);
      RolesMore(roleVs, roleEs, orders, roleV, roleE, order);
      start := start + |tables[b]|;
      converts, roleVs, roleEs, orders := converts + [convert], roleVs + [roleV], roleEs + [roleE], orders + [order];
      b := b + 1;
    }
  }

  lemma ListsSize(order: seq<int>, table: map<int, int>)
    requires Lists(order, table)
    ensures |order| == |table|
  {
  }

  lemma NoneRight(first: int)
    ensures Right([], [], first) && AllIssued([], [], first) && Chain([]) == [] && Roles([], [], [])
  {
  }

  lemma RolesMore(roleVs: seq<seq<int>>, roleEs: seq<seq<int>>, orders: seq<seq<int>>, roleV: seq<int>,
                  roleE: seq<int>, order: seq<int>)
    requires Roles(roleVs, roleEs, orders) && Opened(roleV, roleE, KeyRows(order))
    ensures Roles(roleVs + [roleV], roleEs + [roleE], orders + [order])
  {
    hide Opened, KeyRows;
  }

  // ---------- joining pieces ----------

  function Shifted(starts: seq<int>, off: int): (r: seq<int>)
    ensures |r| == |starts| && forall i :: 0 <= i < |starts| ==> r[i] == starts[i] + off
  {
    seq(|starts|, i requires 0 <= i < |starts| => starts[i] + off)
  }

  lemma OpenedJoin(s1: seq<int>, e1: seq<int>, rows1: Table, s2: seq<int>, e2: seq<int>, rows2: Table)
    requires Opened(s1, e1, rows1) && Opened(s2, e2, rows2)
    ensures Opened(s1 + Shifted(s2, |e1|), e1 + e2, rows1 + rows2)
  {
    if rows1 == [] {
      assert s1 + Shifted(s2, |e1|) == s2 && e1 + e2 == e2 && rows1 + rows2 == rows2;
    } else if rows2 == [] {
      assert s1 + Shifted(s2, |e1|) == s1 && e1 + e2 == e1 && rows1 + rows2 == rows1;
    } else {
      CellsJoin(s1, e1, s2, e2);
    }
  }

  lemma CellsJoin(s1: seq<int>, e1: seq<int>, s2: seq<int>, e2: seq<int>)
    requires Csr(s1, e1) && Csr(s2, e2)
    ensures Csr(s1 + Shifted(s2, |e1|), e1 + e2)
    ensures Cells(s1 + Shifted(s2, |e1|), e1 + e2) == Cells(s1, e1) + Cells(s2, e2)
  {
    CsrJoin(s1, e1, s2, e2);
    var s, e := s1 + Shifted(s2, |e1|), e1 + e2;
    var a, b := Cells(s, e), Cells(s1, e1) + Cells(s2, e2);
    forall i | 0 <= i < |s| ensures a[i] == b[i] {
      CellJoin(s1, e1, s2, e2, i);
    }
  }

  lemma CsrJoin(s1: seq<int>, e1: seq<int>, s2: seq<int>, e2: seq<int>)
    requires Csr(s1, e1) && Csr(s2, e2)
    ensures Csr(s1 + Shifted(s2, |e1|), e1 + e2)
  {
  }

  lemma CellJoin(s1: seq<int>, e1: seq<int>, s2: seq<int>, e2: seq<int>, i: int)
    requires Csr(s1, e1) && Csr(s2, e2) && Csr(s1 + Shifted(s2, |e1|), e1 + e2) && 0 <= i < |s1| + |s2|
    ensures Cells(s1 + Shifted(s2, |e1|), e1 + e2)[i] == if i < |s1| then Cells(s1, e1)[i] else Cells(s2, e2)[i - |s1|]
  {
    var e, s := e1 + e2, s1 + Shifted(s2, |e1|);
    assert Cells(s, e)[i] == e[s[i]..if i + 1 < |s| then s[i + 1] else |e|];
    if i < |s1| - 1 {
      assert e[s1[i]..s1[i + 1]] == e1[s1[i]..s1[i + 1]];
    } else if i == |s1| - 1 {
      assert e[s1[i]..|e1|] == e1[s1[i]..];
    } else {
      var j := i - |s1|;
      var to := if j + 1 < |s2| then s2[j + 1] else |e2|;
      assert e[s2[j] + |e1|..to + |e1|] == e2[s2[j]..to];
    }
  }

  /** Appends piece after piece. */
  ghost function Stack(pieces: seq<Table>): (rows: Table) {
    if pieces == [] then [] else Stack(pieces[..|pieces| - 1]) + pieces[|pieces| - 1]
  }

  method JoinAll(s0: seq<int>, e0: seq<int>, starts: seq<seq<int>>, edges: seq<seq<int>>, ghost rows0: Table,
                 ghost pieces: seq<Table>)
    returns (s: seq<int>, e: seq<int>)
    requires Opened(s0, e0, rows0) && |starts| == |edges| == |pieces|
    requires forall b :: 0 <= b < |starts| ==> Opened(starts[b], edges[b], pieces[b])
    ensures Opened(s, e, rows0 + Stack(pieces))
  {
    hide Opened;
    s, e := s0, e0;
    var b := 0;
    assert rows0 + Stack([]) == rows0;
    assert pieces[..0] == [];
    while b < |starts|
      invariant 0 <= b <= |starts| && Opened(s, e, rows0 + Stack(pieces[..b]))
    {
      OpenedJoin(s, e, rows0 + Stack(pieces[..b]), starts[b], edges[b], pieces[b]);
      assert pieces[..b + 1][..b] == pieces[..b];
      assert rows0 + Stack(pieces[..b]) + pieces[b] == rows0 + Stack(pieces[..b + 1]);
      s := s + Shifted(starts[b], |e|);
      e := e + edges[b];
      b := b + 1;
    }
    assert pieces[..b] == pieces;
  }

  // ---------- cutting the rows into buckets ----------

  lemma SliceCsr(v: seq<int>, e: seq<int>, a: int, c: int)
    requires Csr(v, e) && 0 <= a < c < |v|
    ensures v[a] <= v[c] && Csr(Rebased(v[a..c]), e[v[a]..v[c]])
  {
    assert forall i :: 0 <= i < c - a ==> v[a..c][i] == v[a + i];
    assert v[a] <= v[c];
    assert forall i :: a <= i < c ==> v[a] <= v[i] <= v[c];
  }

  lemma SliceCells(v: seq<int>, e: seq<int>, a: int, c: int)
    requires Csr(v, e) && 0 <= a < c < |v|
    ensures 0 <= v[a] <= v[c] <= |e| && Csr(Rebased(v[a..c]), e[v[a]..v[c]])
            && Cells(Rebased(v[a..c]), e[v[a]..v[c]]) == Cells(v, e)[a..c]
  {
    SliceCsr(v, e, a, c);
    var s, es := Rebased(v[a..c]), e[v[a]..v[c]];
    var x, y := Cells(s, es), Cells(v, e)[a..c];
    forall i | 0 <= i < c - a ensures x[i] == y[i] {
      SliceCell(v, e, a, c, i);
    }
  }

  lemma SliceCell(v: seq<int>, e: seq<int>, a: int, c: int, i: int)
    requires Csr(v, e) && 0 <= a < c < |v| && 0 <= i < c - a && v[a] <= v[c] && Csr(Rebased(v[a..c]), e[v[a]..v[c]])
    ensures Cells(Rebased(v[a..c]), e[v[a]..v[c]])[i] == Cells(v, e)[a + i]
  {
    assert v[a..c][i] == v[a + i] && (i + 1 < c - a ==> v[a..c][i + 1] == v[a + i + 1]);
    assert 0 <= v[a] <= v[a + i] <= v[a + i + 1] <= v[c] <= |e|;
    SubSlice(e, v[a], v[c], v[a + i], v[a + i + 1]);
  }

  lemma SubSlice(e: seq<int>, x: int, y: int, p: int, q: int)
    requires 0 <= x <= p <= q <= y <= |e|
    ensures e[x..y][p - x..q - x] == e[p..q]
  {
    var a, b := e[x..y][p - x..q - x], e[p..q];
    forall i | 0 <= i < q - p ensures a[i] == b[i] {
      assert a[i] == e[x..y][p - x + i];
    }
  }

  /** Bucket `b` takes `size` rows, the last bucket all the rest. */
  function From(size: int, b: int): (r: int) {
    b * size
  }

  function To(size: int, count: int, b: int, n: int): (r: int) {
    if b == count - 1 then n else (b + 1) * size
  }

  /** Every bucket has a row with an edge. */
  ghost predicate Busy(rows: Table, size: int, count: int) {
    && 1 <= count && 1 <= size && From(size, count - 1) < |rows|
    && forall b :: 0 <= b < count ==> exists r ::
         0 <= From(size, b) <= r < To(size, count, b, |rows|) && r < |rows| && rows[r] != []
  }

  lemma BucketRange(size: int, count: int, b: int, n: int)
    requires 1 <= size && 0 <= b < count && From(size, count - 1) < n
    ensures 0 <= From(size, b) < To(size, count, b, n) <= n
    ensures b + 1 < count ==> To(size, count, b, n) == From(size, b + 1)
  {
    TimesGrow(b, count - 1, size);
    if b < count - 1 {
      TimesGrow(b, b + 1, size);
      TimesGrow(b + 1, count - 1, size);
    }
  }

  lemma TimesGrow(x: int, y: int, size: int)
    requires 0 <= x <= y && 1 <= size
    ensures 0 <= x * size && x * size + (y - x) <= y * size
  {
    assert y * size == x * size + (y - x) * size;
    assert (y - x) * size >= y - x;
  }

  /** A bucket with a row that has an edge has an edge. */
  lemma BusyEdges(v: seq<int>, e: seq<int>, size: int, count: int, b: int)
    requires Csr(v, e) && |v| >= 2 && v[|v| - 1] == |e| && Busy(RowsOf(v, e), size, count) && 0 <= b < count
    ensures var a, c := From(size, b), To(size, count, b, |v| - 1); 0 <= a < c < |v| && v[a] < v[c]
  {
    var rows := RowsOf(v, e);
    BucketRange(size, count, b, |rows|);
    var r :| 0 <= From(size, b) <= r < To(size, count, b, |rows|) && r < |rows| && rows[r] != [];
    assert v[From(size, b)] <= v[r] < v[r + 1] <= v[To(size, count, b, |rows|)];
  }

  /** Rewrites all rows, bucket by bucket. */
  method ReplaceAll(v: seq<int>, e: seq<int>, size: int, tables: Tables, converts: Tables)
    returns (newVs: seq<seq<int>>, newEs: seq<seq<int>>, ghost pieces: seq<Table>)
    requires |converts| == |tables| >= 1 && (forall b :: 0 <= b < |tables| ==> tables[b].Keys == converts[b].Keys)
    requires Csr(v, e) && |v| >= 2 && v[|v| - 1] == |e| && Symbols(e) && Busy(RowsOf(v, e), size, |tables|)
    ensures |newVs| == |newEs| == |pieces| && (forall b :: 0 <= b < |newVs| ==> Opened(newVs[b], newEs[b], pieces[b]))
    ensures (forall i :: 0 <= i < |v| - 1 ==> Symbols(RowsOf(v, e)[i]))
    ensures Stack(pieces) == RewriteAll(RowsOf(v, e), converts)
  {
    hide Opened, Rewrite, Csr, From, To, Busy;
    newVs, newEs, pieces := [], [], [];
    var T, n, b := |tables|, |v| - 1, 0;
    ghost var rows := RowsOf(v, e);
    RowsHaveSymbols(v, e, Cells(v, e));
    FirstFrom(size);
    BusySize(rows, size, T);
    while b < T
      invariant 0 <= b <= T && |newVs| == |newEs| == |pieces| == b
      invariant forall c :: 0 <= c < b ==> Opened(newVs[c], newEs[c], pieces[c])
      invariant 0 <= (if b < T then From(size, b) else n) <= n
      invariant Stack(pieces) == RewriteAll(rows[..if b < T then From(size, b) else n], converts)
    {
      var a, c := From(size, b), To(size, T, b, n);
      BusyEdges(v, e, size, T, b);
      BucketRange(size, T, b, n);
      LastTo(size, T, b, n);
      SliceCells(v, e, a, c);
      SymbolsSlice(e, v[a], v[c]);
      var newV, newE := Replace(e[v[a]..v[c]], v[a..c], tables, converts, rows[a..c]);
      RewriteSplit(rows, converts, a, c);
      assert Cells(v, e)[a..c] == rows[a..c];
      StackMore(pieces, RewriteAll(rows[a..c], converts));
      newVs, newEs, pieces := newVs + [newV], newEs + [newE], pieces + [RewriteAll(rows[a..c], converts)];
      b := b + 1;
    }
    assert rows[..n] == rows;
  }

  lemma SymbolsSlice(e: seq<int>, a: int, c: int)
    requires Symbols(e) && 0 <= a <= c <= |e|
    ensures Symbols(e[a..c])
  {
  }

  lemma LastTo(size: int, count: int, b: int, n: int)
    ensures b == count - 1 ==> To(size, count, b, n) == n
  {
  }

  lemma BusySize(rows: Table, size: int, count: int)
    requires Busy(rows, size, count)
    ensures 1 <= size && From(size, count - 1) < |rows|
  {
  }

  lemma FirstFrom(size: int)
    ensures From(size, 0) == 0
  {
  }

  lemma StackMore(pieces: seq<Table>, piece: Table)
    ensures Stack(pieces + [piece]) == Stack(pieces) + piece
  {
    assert (pieces + [piece])[..|pieces + [piece]| - 1] == pieces;
  }

  lemma RewriteSplit(rows: Table, converts: Tables, a: int, c: int)
    requires |converts| >= 1 && (forall i :: 0 <= i < |rows| ==> Symbols(rows[i])) && 0 <= a <= c <= |rows|
    ensures RewriteAll(rows[..c], converts) == RewriteAll(rows[..a], converts) + RewriteAll(rows[a..c], converts)
  {
    hide Rewrite;
    assert rows[..c] == rows[..a] + rows[a..c];
  }

  // ---------- sizes ----------

  ghost function Length(rows: Table): (n: nat) {
    if rows == [] then 0 else Length(rows[..|rows| - 1]) + |rows[|rows| - 1]|
  }

  lemma {:induction false} LengthJoin(a: Table, b: Table)
    ensures Length(a + b) == Length(a) + Length(b)
  {
    if b == [] {
      assert a + b == a;
    } else {
      var k := |b| - 1;
      LengthJoin(a, b[..k]);
      assert (a + b)[..|a + b| - 1] == a + b[..k];
    }
  }

  lemma {:induction false} RewriteShrinks(row: seq<int>, converts: Tables)
    requires |converts| >= 1 && Symbols(row)
    ensures |Rewrite(row, converts)| <= |row|
  {
    hide Rewrite, Key;
    RewriteSteps(row, converts);
    if |row| >= 2 {
      if Listed(converts, row[0], row[1]) {
        RewriteShrinks(row[2..], converts);
      } else {
        RewriteShrinks(row[1..], converts);
      }
    }
  }

  lemma {:induction false} RewriteLength(rows: Table, converts: Tables)
    requires |converts| >= 1 && forall i :: 0 <= i < |rows| ==> Symbols(rows[i])
    ensures Length(RewriteAll(rows, converts)) <= Length(rows)
  {
    hide Rewrite;
    if rows != [] {
      var k := |rows| - 1;
      RewriteLength(rows[..k], converts);
      RewriteShrinks(rows[k], converts);
      assert RewriteAll(rows, converts)[..k] == RewriteAll(rows[..k], converts);
    }
  }

  lemma {:induction false} KeysLength(keys: seq<int>)
    ensures Length(KeyRows(keys)) == 2 * |keys|
  {
    if keys != [] {
      var k := |keys| - 1;
      KeysLength(keys[..k]);
      assert KeyRows(keys)[..k] == KeyRows(keys[..k]);
    }
  }

  lemma {:induction false} CellsLength(v: seq<int>, e: seq<int>, k: int)
    requires Csr(v, e) && 0 <= k < |v|
    ensures Length(Cells(v, e)[..k]) == v[k]
  {
    var rows := Cells(v, e);
    if k > 0 {
      CellsLength(v, e, k - 1);
      assert rows[..k][..k - 1] == rows[..k - 1];
    }
  }

  /** A table has no more keys than its bucket has entries. */
  lemma FewKeys(bucket: seq<int>, table: map<int, int>)
    requires forall k :: k in table ==> k in bucket
    ensures |table| <= |bucket|
  {
    forall k | k in table.Keys ensures k in bucket {
      assert k in table;
    }
    Cards.ElementsCard(bucket, table.Keys);
    assert |table| == |table.Keys|;
  }

  lemma {:induction false} ChainSize(buckets: Buckets, tables: Tables, orders: seq<seq<int>>, threshold: int)
    requires Frequent(buckets, tables, threshold) && |orders| == |tables|
    requires forall b :: 0 <= b < |tables| ==> Lists(orders[b], tables[b])
    ensures |Chain(orders)| <= Total(buckets)
  {
    if orders != [] {
      var k := |orders| - 1;
      assert Frequent(buckets[..k], tables[..k], threshold);
      ChainSize(buckets[..k], tables[..k], orders[..k], threshold);
      FewKeys(buckets[k], tables[k]);
      assert Lists(orders[k], tables[k]);
    }
  }

  lemma ListedIn(order: seq<int>, table: map<int, int>, j: int)
    requires Lists(order, table) && 0 <= j < |order|
    ensures order[j] in table
  {
    var x := order[j];
    assert x in order;
    assert x in table;
  }

  lemma FrequentIn(buckets: Buckets, tables: Tables, threshold: int, b: int, k: int)
    requires Frequent(buckets, tables, threshold) && 0 <= b < |tables| && k in tables[b]
    ensures k in buckets[b]
  {
  }

  lemma {:induction false} ChainIn(buckets: Buckets, tables: Tables, orders: seq<seq<int>>, threshold: int, n: int)
    requires Frequent(buckets, tables, threshold) && |orders| == |tables|
    requires forall b :: 0 <= b < |tables| ==> Lists(orders[b], tables[b])
    requires forall b, i {:trigger buckets[b][i]} :: 0 <= b < |buckets| && 0 <= i < |buckets[b]| ==>
               0 <= buckets[b][i] / WORD < n && 0 <= buckets[b][i] % WORD < n
    ensures KeysIn(Chain(orders), n)
  {
    if orders != [] {
      var k := |orders| - 1;
      assert Frequent(buckets[..k], tables[..k], threshold);
      ChainIn(buckets[..k], tables[..k], orders[..k], threshold, n);
      assert Lists(orders[k], tables[k]);
      forall j | 0 <= j < |orders[k]| ensures 0 <= orders[k][j] / WORD < n && 0 <= orders[k][j] % WORD < n {
        ListedIn(orders[k], tables[k], j);
        FrequentIn(buckets, tables, threshold, k, orders[k][j]);
      }
    }
  }

  // ---------- a turn ----------

  /** A graph as the turns pass it on: `maxId` is its last node. */
  ghost predicate Graph(v: seq<int>, e: seq<int>, maxId: int) {
    && Csr(v, e) && v[|v| - 1] == |e| && |v| == maxId + 2 && maxId >= 0 && maxId + 1 <= WORD && RowIn(e, maxId + 1)
  }

  ghost function RowsOf(v: seq<int>, e: seq<int>): (rows: Table)
    requires Csr(v, e)
    ensures |rows| == |v| - 1
  {
    Cells(v, e)[..|v| - 1]
  }

  /** What a turn is given: a graph, buckets with pairs of its nodes, and an edge for every worker. */
  ghost predicate Ready(v: seq<int>, e: seq<int>, maxId: int, buckets: Buckets, size: int) {
    Graph(v, e, maxId) && Fed(buckets, maxId + 1) && |buckets| >= 1 && Busy(RowsOf(v, e), size, |buckets|)
    && RowsOf(v, e)[0] != []
  }

  /** The graph after a turn, and the tables it was rewritten with. */
  ghost predicate Stepped(rows: Table, buckets: Buckets, threshold: int, converts: Tables, keys: seq<int>,
                          rows': Table) {
    && |converts| == |buckets| >= 1 && (forall i :: 0 <= i < |rows| ==> Symbols(rows[i]))
    && Right(converts, keys, |rows|) && AllIssued(converts, keys, |rows|) && KeysIn(keys, |rows|)
    && rows' == Turned(rows, converts, keys)
    && (forall b, k {:trigger k in converts[b]} :: 0 <= b < |buckets| ==> (k in converts[b] <==>
         k in buckets[b] && Tally(buckets[b], k) >= threshold))
  }

  lemma StackOfKeys(orders: seq<seq<int>>) returns (pieces: seq<Table>)
    ensures |pieces| == |orders| && (forall b :: 0 <= b < |orders| ==> pieces[b] == KeyRows(orders[b]))
    ensures Stack(pieces) == KeyRows(Chain(orders))
  {
    if orders == [] {
      pieces := [];
    } else {
      var k := |orders| - 1;
      var rest := StackOfKeys(orders[..k]);
      pieces := rest + [KeyRows(orders[k])];
      StackMore(rest, KeyRows(orders[k]));
      assert KeyRows(Chain(orders)) == KeyRows(Chain(orders[..k])) + KeyRows(orders[k]);
    }
  }

  lemma SentinelClosed(s: seq<int>, e: seq<int>, rows: Table)
    requires Opened(s, e, rows) && rows != []
    ensures Csr(s + [|e|], e) && (s + [|e|])[|s|] == |e| && RowsOf(s + [|e|], e) == rows && |s| == |rows|
  {
    CellsClose(s, e);
    hide Csr, Cells;
    assert (rows + [[]])[..|rows|] == rows;
  }

  /** One turn. */
  method Turn(v: seq<int>, e: seq<int>, maxId: int, buckets0: Buckets, threshold: int, size: int)
    returns (v': seq<int>, e': seq<int>, maxId': int, buckets: Buckets, ghost converts: Tables, ghost keys: seq<int>)
    requires Ready(v, e, maxId, buckets0, size)
    ensures |buckets| == |buckets0| && Adds(buckets0, buckets, RowsOf(v, e)) && Fed(buckets, maxId + 1)
            && Total(buckets) <= Total(buckets0) + |e|
    ensures Csr(v', e') && v'[|v'| - 1] == |e'| && |v'| == maxId' + 2 && |v'| == |v| + |keys|
    ensures |keys| <= Total(buckets)
    ensures Stepped(RowsOf(v, e), buckets, threshold, converts, keys, RowsOf(v', e')) && |e'| <= |e| + 2 * |keys|
  {
    hide Csr, Fed, Total, Adds, Busy, Opened, Rewrite, Frequent, Right, AllIssued, Stack, Chain, Lists, KeysIn, RowsOf,
         Symbols, Cells;
    ghost var rows := RowsOf(v, e);
    GraphFacts(v, e, maxId);
    FirstRow(v, e);
    buckets := Gather(v, e, buckets0, maxId + 1);
    AddsSize(buckets0, buckets, rows);
    var tables := CountAll(buckets, threshold);
    FrequentSize(buckets, tables, threshold);
    var conv, roleVs, roleEs, orders := NumberAll(tables, maxId);
    converts, keys := conv, Chain(orders);
    ChainSize(buckets, tables, orders, threshold);
    FedKeys(buckets, tables, orders, threshold, maxId + 1);
    var newVs, newEs, pieces := ReplaceAll(v, e, size, tables, conv);
    NothingOpened();
    v', e' := JoinAll([], [], newVs, newEs, [], pieces);
    ghost var roles := StackOfKeys(orders);
    RolesOpened(roleVs, roleEs, orders, roles);
    ghost var mid := [] + Stack(pieces);
    v', e' := JoinAll(v', e', roleVs, roleEs, mid, roles);
    assert mid == Stack(pieces);
    SentinelClosed(v', e', mid + Stack(roles));
    v' := v' + [|e'|];
    maxId' := |v'| - 2;
    TurnSize(v, e, v', e', conv, keys);
    FrequentConverts(buckets, tables, threshold, conv);
  }

  lemma GraphFacts(v: seq<int>, e: seq<int>, maxId: int)
    requires Graph(v, e, maxId)
    ensures Symbols(e) && |RowsOf(v, e)| == maxId + 1
  {
  }

  lemma FirstRow(v: seq<int>, e: seq<int>)
    requires Csr(v, e) && |v| >= 2 && RowsOf(v, e)[0] != []
    ensures v[1] > 0
  {
  }

  lemma AddsSize(before: Buckets, after: Buckets, rows: Table)
    requires Adds(before, after, rows)
    ensures |before| == |after|
  {
  }

  lemma FrequentSize(buckets: Buckets, tables: Tables, threshold: int)
    requires Frequent(buckets, tables, threshold)
    ensures |tables| == |buckets|
  {
  }

  lemma FedKeys(buckets: Buckets, tables: Tables, orders: seq<seq<int>>, threshold: int, n: int)
    requires Fed(buckets, n) && Frequent(buckets, tables, threshold) && |orders| == |tables|
    requires forall b :: 0 <= b < |tables| ==> Lists(orders[b], tables[b])
    ensures KeysIn(Chain(orders), n)
  {
    hide Frequent, Chain, Lists, KeysIn;
    ChainIn(buckets, tables, orders, threshold, n);
  }

  lemma RolesOpened(roleVs: seq<seq<int>>, roleEs: seq<seq<int>>, orders: seq<seq<int>>, pieces: seq<Table>)
    requires Roles(roleVs, roleEs, orders) && |pieces| == |orders|
    requires forall b :: 0 <= b < |orders| ==> pieces[b] == KeyRows(orders[b])
    ensures |roleVs| == |roleEs| == |pieces|
    ensures forall b :: 0 <= b < |pieces| ==> Opened(roleVs[b], roleEs[b], pieces[b])
  {
    hide Opened, KeyRows;
  }

  lemma TurnSize(v: seq<int>, e: seq<int>, v': seq<int>, e': seq<int>, converts: Tables, keys: seq<int>)
    requires Csr(v, e) && v[|v| - 1] == |e| && Csr(v', e') && v'[|v'| - 1] == |e'|
    requires |converts| >= 1 && (forall i :: 0 <= i < |v| - 1 ==> Symbols(RowsOf(v, e)[i]))
    requires RowsOf(v', e') == RewriteAll(RowsOf(v, e), converts) + KeyRows(keys)
    ensures |e'| <= |e| + 2 * |keys|
  {
    hide Length, Rewrite, Symbols, KeyRows;
    CellsLength(v, e, |v| - 1);
    CellsLength(v', e', |v'| - 1);
    RewriteLength(RowsOf(v, e), converts);
    KeysLength(keys);
    LengthJoin(RewriteAll(RowsOf(v, e), converts), KeyRows(keys));
  }

  lemma FrequentConverts(buckets: Buckets, tables: Tables, threshold: int, converts: Tables)
    requires Frequent(buckets, tables, threshold) && |converts| == |tables|
    requires forall b :: 0 <= b < |tables| ==> tables[b].Keys == converts[b].Keys
    ensures forall b, k {:trigger k in converts[b]} :: 0 <= b < |buckets| ==> (k in converts[b] <==>
              k in buckets[b] && Tally(buckets[b], k) >= threshold)
  {
    forall b, k | 0 <= b < |buckets|
      ensures k in converts[b] <==> k in buckets[b] && Tally(buckets[b], k) >= threshold
    {
      assert k in converts[b] <==> k in converts[b].Keys;
      assert k in tables[b] <==> k in tables[b].Keys;
    }
  }

  // ---------- all turns ----------

  /** The graph still stands for the rows it came from, and its rules are without circles. */
  ghost predicate Keeps(rows0: Table, V: int, g: Table, m: Table, h: seq<nat>) {
    && V == |rows0| <= |g| && Solves(g, V, m) && Ranked(g, V, h)
    && forall x :: 0 <= x < V ==> RowIn(g[x], |m|) && Flatten(g[x], m) == rows0[x]
  }

  lemma {:induction false} FlattenVertices(row: seq<int>, m: Table)
    requires RowIn(row, |m|) && forall s :: 0 <= s < |m| ==> m[s] == [s]
    ensures Flatten(row, m) == row
  {
    if row != [] {
      FlattenVertices(row[1..], m);
    }
  }

  lemma Begins(rows0: Table)
    requires InRange(rows0, |rows0|)
    ensures Keeps(rows0, |rows0|, rows0, seq(|rows0|, s => [s]), seq(|rows0|, _ => 0))
  {
    var m: Table := seq(|rows0|, s => [s]);
    forall x | 0 <= x < |rows0| ensures RowIn(rows0[x], |m|) && Flatten(rows0[x], m) == rows0[x] {
      RowOf(rows0, x);
      FlattenVertices(rows0[x], m);
    }
  }

  /** A turn keeps it so. */
  lemma KeepsStep(rows0: Table, V: int, g: Table, m: Table, h: seq<nat>, buckets: Buckets, threshold: int,
                  converts: Tables, keys: seq<int>, g': Table)
    requires Keeps(rows0, V, g, m, h) && Stepped(g, buckets, threshold, converts, keys, g')
    ensures KeysIn(keys, |m|) && KeysIn(keys, |h|) && Keeps(rows0, V, g', NewMeaning(m, keys), NewRank(h, V, keys))
            && InRange(g', |g'|)
  {
    hide Flatten, Rewrite, Symbols, Right, KeysIn, InRange;
    TurnSolves(g, V, converts, keys, m);
    TurnRanked(g, V, converts, keys, h);
    forall x | 0 <= x < V
      ensures RowIn(g'[x], |NewMeaning(m, keys)|) && Flatten(g'[x], NewMeaning(m, keys)) == rows0[x]
    {
      assert TurnKeeps(g, converts, keys, m, x);
    }
  }

  lemma BusyKept(rows: Table, converts: Tables, keys: seq<int>, size: int, count: int)
    requires |converts| >= 1 && (forall i :: 0 <= i < |rows| ==> Symbols(rows[i])) && Busy(rows, size, count)
    ensures Busy(Turned(rows, converts, keys), size, count)
  {
    hide Symbols;
    var rows' := Turned(rows, converts, keys);
    forall b | 0 <= b < count
      ensures exists r :: 0 <= From(size, b) <= r < To(size, count, b, |rows'|) && r < |rows'| && rows'[r] != []
    {
      var r :| 0 <= From(size, b) <= r < To(size, count, b, |rows|) && r < |rows| && rows[r] != [];
      assert rows'[r] == Rewrite(rows[r], converts) != [];
    }
  }

  lemma EdgesInRows(v: seq<int>, e: seq<int>, n: int)
    requires Csr(v, e) && v[|v| - 1] == |e| && InRange(RowsOf(v, e), n)
    ensures RowIn(e, n)
  {
    var rows := RowsOf(v, e);
    forall i | 0 <= i < |e| ensures 0 <= e[i] < n {
      var r := RowWith(v, e, i, |v| - 1);
      assert rows[r][i - v[r]] == e[i];
    }
  }

  lemma FedMore(buckets: Buckets, n: int, n': int)
    requires Fed(buckets, n) && n <= n'
    ensures Fed(buckets, n')
  {
  }

  /** After a turn everything is ready for the next. */
  lemma ReadyAgain(v: seq<int>, e: seq<int>, maxId: int, buckets: Buckets, size: int, threshold: int,
                   converts: Tables, keys: seq<int>,
                   v': seq<int>, e': seq<int>)
    requires Csr(v, e) && |v| == maxId + 2 && maxId >= 0 && Busy(RowsOf(v, e), size, |buckets|)
             && RowsOf(v, e)[0] != [] && Fed(buckets, maxId + 1)
    requires Csr(v', e') && v'[|v'| - 1] == |e'| && |v'| == |v| + |keys| && |v'| - 1 <= WORD
    requires Stepped(RowsOf(v, e), buckets, threshold, converts, keys, RowsOf(v', e'))
    requires InRange(RowsOf(v', e'), |v'| - 1)
    ensures Ready(v', e', |v'| - 2, buckets, size)
  {
    hide Csr, Fed, Busy, Symbols, Right, KeysIn, InRange, RowsOf;
    EdgesInRows(v', e', |v'| - 1);
    FedMore(buckets, maxId + 1, |v'| - 1);
    BusyKept(RowsOf(v, e), converts, keys, size, |buckets|);
  }

  lemma NoPairs(count: int, n: int)
    requires 1 <= count
    ensures Fed(seq(count, _ => []), n) && Total(seq(count, _ => [])) == 0
  {
    NoTotal(seq(count, _ => []));
  }

  lemma {:induction false} NoTotal(buckets: Buckets)
    requires forall b :: 0 <= b < |buckets| ==> buckets[b] == []
    ensures Total(buckets) == 0
  {
    if buckets != [] {
      NoTotal(buckets[..|buckets| - 1]);
    }
  }

  /**
   What one turn does: the pairs of `g` are added to what the buckets hold, and `g'` is the graph in which the pairs
   that are there often enough have got rules.
   */
  ghost predicate OneTurn(g: Table, buckets: Buckets, threshold: int, g': Table, buckets': Buckets) {
    && Adds(buckets, buckets', g) && Fed(buckets', |g|)
    && exists converts, keys :: Stepped(g, buckets', threshold, converts, keys, g')
  }

  /** A pair gets a rule in a turn exactly when it was gathered often enough, and then one only. */
  lemma PairRule(g: Table, buckets: Buckets, threshold: int, converts: Tables, keys: seq<int>, g': Table,
                 buckets': Buckets, left: int, right: int)
    requires Adds(buckets, buckets', g) && Fed(buckets', |g|) && Stepped(g, buckets', threshold, converts, keys, g')
    requires 0 <= left && 0 <= right < WORD
    ensures Listed(converts, left, right) <==> Key(left, right) in keys
    ensures Key(left, right) in keys <==>
              var n := Gathered(buckets, left, right) + RowCount(g, Pair(left, right)); n >= 1 && n >= threshold
    ensures forall i, j :: 0 <= i < j < |keys| ==> keys[i] != keys[j]
    ensures forall j :: 0 <= j < |keys| ==> |g| + j < |g'| && g'[|g| + j] == KeyRow(keys[j])
  {
    hide Turned, Symbols, KeysIn, RowCount, Fed, Key;
    var k, b := Key(left, right), left % |converts|;
    TallyIn(buckets'[b], k);
    assert Gathered(buckets', left, right) == Tally(buckets'[b], k);
    assert Listed(converts, left, right) <==> k in converts[b];
    forall j | 0 <= j < |keys| ensures k in converts[b] || keys[j] != k {
      KeyHome(g, buckets', threshold, converts, keys, g', j);
    }
    forall i, j | 0 <= i < j < |keys| ensures keys[i] != keys[j] {
      KeyHome(g, buckets', threshold, converts, keys, g', i);
      KeyHome(g, buckets', threshold, converts, keys, g', j);
    }
  }

  /** The number of a rule is in the table that its first symbol belongs to. */
  lemma KeyHome(g: Table, buckets: Buckets, threshold: int, converts: Tables, keys: seq<int>, g': Table, j: int)
    requires Fed(buckets, |g|) && Stepped(g, buckets, threshold, converts, keys, g') && 0 <= j < |keys|
    ensures var b := (keys[j] / WORD) % |converts|; keys[j] in converts[b] && converts[b][keys[j]] == |g| + j
  {
    hide Turned, Symbols, KeysIn;
    assert Issued(converts, keys[j], |g| + j);
    var b :| 0 <= b < |converts| && keys[j] in converts[b] && converts[b][keys[j]] == |g| + j;
    var i :| 0 <= i < |buckets[b]| && buckets[b][i] == keys[j];
  }

  /** How far the graph, its edges and the gathered pairs have grown after some turns. */
  ghost predicate Grown(turn: int, nodes: int, edges: int, v: int, e: int, pairs: int) {
    && (turn == 0 ==> v <= nodes && e <= edges && pairs == 0)
    && (turn == 1 ==> v <= nodes + edges && e <= 3 * edges && pairs <= edges)
    && (turn == 2 ==> v <= nodes + 5 * edges && e <= 11 * edges && pairs <= 4 * edges)
    && (turn == 3 ==> v <= nodes + 20 * edges && e <= 41 * edges && pairs <= 15 * edges)
  }

  /**
   The three turns.  `count` workers share the rows, `v.Length / count` of them each and the last worker the rest; `m`
   and `h` are the meanings and ranks of the result, `gs` and `bs` the graphs and buckets between the turns.
   */
  method Repair(v0: seq<int>, e0: seq<int>, maxSymbol: int, count: int, threshold: int)
    returns (v: seq<int>, e: seq<int>, maxId: int, ghost m: Table, ghost h: seq<nat>, ghost gs: seq<Table>,
             ghost bs: seq<Buckets>)
    requires Graph(v0, e0, maxSymbol) && 1 <= count && Busy(RowsOf(v0, e0), |v0| / count, count)
    requires RowsOf(v0, e0)[0] != []
    requires |v0| + 20 * |e0| <= 0x8000_0000
    ensures Csr(v, e) && v[|v| - 1] == |e| && |v| == maxId + 2
    ensures Keeps(RowsOf(v0, e0), maxSymbol + 1, RowsOf(v, e), m, h)
    ensures |gs| == |bs| == 4 && gs[0] == RowsOf(v0, e0) && bs[0] == seq(count, _ => []) && gs[3] == RowsOf(v, e)
    ensures forall t {:trigger gs[t]} :: 0 <= t < 3 ==> OneTurn(gs[t], bs[t], threshold, gs[t + 1], bs[t + 1])
  {
    hide Csr, Fed, Total, Adds, Busy, Stepped, RowsOf, Keeps, RowIn;
    v, e, maxId := v0, e0, maxSymbol;
    ghost var rows0 := RowsOf(v0, e0);
    RowsIn(v0, e0, maxSymbol);
    Begins(rows0);
    m, h := seq(|rows0|, s => [s]), seq(|rows0|, _ => 0);
    var buckets: Buckets := seq(count, _ => []);
    NoPairs(count, maxSymbol + 1);
    gs, bs := [rows0], [buckets];
    var size, turn := |v0| / count, 0;
    while turn < 3
      invariant 0 <= turn <= 3 && |buckets| == count && Ready(v, e, maxId, buckets, size)
      invariant Keeps(rows0, maxSymbol + 1, RowsOf(v, e), m, h)
      invariant Grown(turn, |v0|, |e0|, |v|, |e|, Total(buckets))
      invariant |gs| == |bs| == turn + 1 && gs[0] == rows0 && bs[0] == seq(count, _ => [])
      invariant gs[turn] == RowsOf(v, e) && bs[turn] == buckets
      invariant forall t {:trigger gs[t]} :: 0 <= t < turn ==> OneTurn(gs[t], bs[t], threshold, gs[t + 1], bs[t + 1])
    {
      ghost var g := RowsOf(v, e);
      var v', e', maxId', buckets', converts, keys := Turn(v, e, maxId, buckets, threshold, size);
      KeepsStep(rows0, maxSymbol + 1, g, m, h, buckets', threshold, converts, keys, RowsOf(v', e'));
      ReadyAgain(v, e, maxId, buckets', size, threshold, converts, keys, v', e');
      assert OneTurn(g, buckets, threshold, RowsOf(v', e'), buckets');
      v, e, maxId, buckets := v', e', maxId', buckets';
      gs, bs := gs + [RowsOf(v, e)], bs + [buckets];
      m, h := NewMeaning(m, keys), NewRank(h, maxSymbol + 1, keys);
      turn := turn + 1;
    }
  }

  lemma RowsIn(v: seq<int>, e: seq<int>, maxId: int)
    requires Graph(v, e, maxId)
    ensures InRange(RowsOf(v, e), maxId + 1) && |RowsOf(v, e)| == maxId + 1
  {
  }
}
