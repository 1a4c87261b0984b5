/**
 Compressed sparse rows: `vlist` holds the bounds of the rows in the edge list `elist`.
 */
module CsrRows {
  // ---------- rows as given ----------

  /** The row bounds that are used lie inside the edge list. */
  ghost predicate Readable(vlist: seq<int>, elist: seq<int>) {
    forall v :: 0 <= v < |vlist| - 1 && vlist[v] < vlist[v + 1] ==> 0 <= vlist[v] && vlist[v + 1] <= |elist|
  }

  ghost function Row(vlist: seq<int>, elist: seq<int>, v: int): (r: seq<int>)
    requires Readable(vlist, elist) && 0 <= v < |vlist| - 1
  {
    if vlist[v] < vlist[v + 1] then elist[vlist[v]..vlist[v + 1]] else []
  }

  /** The first `k` rows. */
  ghost function Rows(vlist: seq<int>, elist: seq<int>, k: int): (r: seq<seq<int>>)
    requires Readable(vlist, elist) && 0 <= k && (k == 0 || k < |vlist|)
    ensures |r| == k && forall v :: 0 <= v < k ==> r[v] == Row(vlist, elist, v)
  {
    seq(k, v requires 0 <= v < k => Row(vlist, elist, v))
  }

  // ---------- rows under construction ----------

  ghost predicate Csr(v: seq<int>, e: seq<int>) {
    && |v| >= 1 && v[0] == 0
    && (forall i :: 0 <= i < |v| ==> 0 <= v[i] <= |e|)
    && (forall i, j :: 0 <= i <= j < |v| ==> v[i] <= v[j])
  }

  /** The finished rows, then the row under construction. */
  ghost function Cells(v: seq<int>, e: seq<int>): (r: seq<seq<int>>)
    requires Csr(v, e)
    ensures |r| == |v| && forall i :: 0 <= i < |v| ==> r[i] == e[v[i]..if i + 1 < |v| then v[i + 1] else |e|]
  {
    seq(|v|, i requires 0 <= i < |v| => e[v[i]..if i + 1 < |v| then v[i + 1] else |e|])
  }

  lemma CellsMore(v: seq<int>, e: seq<int>, more: seq<int>)
    requires Csr(v, e)
    ensures Csr(v, e + more) && Cells(v, e + more) == Widened(Cells(v, e), more)
  {
    var a, b := Cells(v, e + more), Widened(Cells(v, e), more);
    forall i | 0 <= i < |v| ensures a[i] == b[i] {
    }
  }

  lemma CellsClose(v: seq<int>, e: seq<int>)
    requires Csr(v, e)
    ensures Csr(v + [|e|], e) && Cells(v + [|e|], e) == Cells(v, e) + [[]]
  {
    var v' := v + [|e|];
    var a, b := Cells(v', e), Cells(v, e) + [[]];
    forall i | 0 <= i < |v'| ensures a[i] == b[i] {
    }
  }

  /** The rows once `more` has been appended to the last of them. */
  ghost function Widened(rows: seq<seq<int>>, more: seq<int>): (rows': seq<seq<int>>)
    requires |rows| >= 1
    ensures |rows'| == |rows|
  {
    rows[|rows| - 1 := rows[|rows| - 1] + more]
  }

  /** Appending a row and closing it adds it to the rows. */
  lemma RowClosed(v: seq<int>, e: seq<int>, done: seq<seq<int>>, row: seq<int>)
    requires Csr(v, e) && Cells(v, e) == done + [[]]
    ensures Csr(v + [|e + row|], e + row) && Cells(v + [|e + row|], e + row) == done + [row] + [[]]
  {
    CellsMore(v, e, row);
    CellsClose(v, e + row);
    hide Cells;
    assert [] + row == row;
    assert Widened(done + [[]], row) == done + [row];
  }

  lemma LastCell(v: seq<int>, e: seq<int>, g: seq<seq<int>>)
    requires Csr(v, e) && Cells(v, e) == g + [[]]
    ensures |v| == |g| + 1 && v[|v| - 1] == |e| && Cells(v, e)[..|g|] == g
  {
    assert Cells(v, e)[|v| - 1] == [];
  }

  /** The row that holds entry `i` of the edge list. */
  lemma {:induction false} RowWith(vlist: seq<int>, elist: seq<int>, i: int, k: int) returns (r: int)
    requires Csr(vlist, elist) && 0 <= k < |vlist| && 0 <= i < vlist[k]
    ensures 0 <= r < k && vlist[r] <= i < vlist[r + 1]
  {
    if vlist[k - 1] <= i {
      r := k - 1;
    } else {
      r := RowWith(vlist, elist, i, k - 1);
    }
  }
}
