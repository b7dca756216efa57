/** What a batch of requests makes of the rows by key (src/engine.cpp:1296-1425), on plain maps: which of its
    rows stand at the end, when they keep a unique column unique, and which of its updates write a row that the
    batch has deleted before. All of it can be read off the requests. */
module BatchRows {
  import opened Errors
  import opened RowImage
  import opened SecIndex

  /** What a caller asks for; a delete brings its key in front of the row. */
  datatype Request = Request(kind: Kind, row: Row)

  function KeyOf(row: Row): int {
    if |row| > 0 && row[0].Int? then row[0].v else 0
  }

  function CellAt(row: Row, col: nat): Cell {
    if col < |row| then row[col] else Null
  }

  function StepRow(t: map<int, Row>, kind: Kind, key: int, row: Row): map<int, Row> {
    match kind
    case Insert => t[key := row]
    case Update => if key in t then t[key := row] else t
    case Delete => t - {key}
  }

  /** The effect of one applied operation on the rows by key. */
  function StepRows(t: map<int, Row>, op: Op): map<int, Row> {
    StepRow(t, op.kind, op.key, op.rec)
  }

  function StepAll(t: map<int, Row>, reqs: seq<Request>): map<int, Row> {
    if reqs == [] then t else
      var req := reqs[|reqs| - 1];
      StepRow(StepAll(t, reqs[..|reqs| - 1]), req.kind, KeyOf(req.row), req.row)
  }

  lemma StepAllNone(t: map<int, Row>)
    ensures StepAll(t, []) == t
  {
  }

  lemma StepAllNext(t: map<int, Row>, reqs: seq<Request>, i: nat)
    requires i < |reqs|
    ensures StepAll(t, reqs[..i + 1])
         == StepRow(StepAll(t, reqs[..i]), reqs[i].kind, KeyOf(reqs[i].row), reqs[i].row)
  {
    assert reqs[..i + 1][..i] == reqs[..i];
  }

  // ---- which rows stand ----

  /** Staging checks against the rows before the batch: inserts are of absent keys, the rest of present ones. */
  predicate Consistent(t: map<int, Row>, reqs: seq<Request>) {
    forall i :: 0 <= i < |reqs| ==> (reqs[i].kind == Insert <==> KeyOf(reqs[i].row) !in t)
  }

  /** One of the first n requests deletes the key. */
  predicate Deleted(reqs: seq<Request>, n: nat, k: int)
    requires n <= |reqs|
  {
    exists j :: 0 <= j < n && reqs[j].kind == Delete && KeyOf(reqs[j].row) == k
  }

  /** Among the first n requests a later one has the same key. */
  predicate Later(reqs: seq<Request>, n: nat, i: nat)
    requires i < n <= |reqs|
  {
    exists j :: i < j < n && KeyOf(reqs[j].row) == KeyOf(reqs[i].row)
  }

  /** Request i writes the row that its key has after the first n requests. */
  predicate Stands(reqs: seq<Request>, n: nat, i: nat)
    requires i < n <= |reqs|
  {
    reqs[i].kind != Delete && !Later(reqs, n, i) && !Deleted(reqs, i, KeyOf(reqs[i].row))
  }

  /** Request i updates a key that the batch has deleted before, and is the last to do so. */
  predicate Stray(reqs: seq<Request>, n: nat, i: nat)
    requires i < n <= |reqs|
  {
    reqs[i].kind == Update && !Later(reqs, n, i) && Deleted(reqs, i, KeyOf(reqs[i].row))
  }

  lemma {:induction false} PresentAfter(t: map<int, Row>, reqs: seq<Request>, n: nat, k: int)
    requires Consistent(t, reqs) && n <= |reqs| && k in t
    ensures k in StepAll(t, reqs[..n]) <==> !Deleted(reqs, n, k)
  {
    if n > 0 {
      PresentAfter(t, reqs, n - 1, k);
      StepAllNext(t, reqs, n - 1);
      assert Deleted(reqs, n, k) <==>
        Deleted(reqs, n - 1, k) || (reqs[n - 1].kind == Delete && KeyOf(reqs[n - 1].row) == k);
    }
  }

  lemma StandsNext(reqs: seq<Request>, n: nat, i: nat)
    requires i <= n < |reqs|
    ensures Stands(reqs, n + 1, i) <==>
      if i == n then reqs[n].kind != Delete && !Deleted(reqs, n, KeyOf(reqs[n].row))
      else Stands(reqs, n, i) && KeyOf(reqs[n].row) != KeyOf(reqs[i].row)
  {
    if i < n {
      assert Later(reqs, n + 1, i) <==> Later(reqs, n, i) || KeyOf(reqs[n].row) == KeyOf(reqs[i].row);
    }
  }

  /** Key k has the row of the request that stands for it, or its old row if no request names it. */
  ghost predicate RowIs(t: map<int, Row>, reqs: seq<Request>, n: nat, k: int, row: Row)
    requires n <= |reqs|
  {
    || (k in t && t[k] == row && forall j :: 0 <= j < n ==> KeyOf(reqs[j].row) != k)
    || (exists i :: 0 <= i < n && Stands(reqs, n, i) && KeyOf(reqs[i].row) == k && reqs[i].row == row)
  }

  lemma {:induction false} RowAfter(t: map<int, Row>, reqs: seq<Request>, n: nat, k: int)
    requires Consistent(t, reqs) && n <= |reqs|
    ensures var e := StepAll(t, reqs[..n]);
      && (k in e ==> RowIs(t, reqs, n, k, e[k]))
      && (forall i :: 0 <= i < n && Stands(reqs, n, i) && KeyOf(reqs[i].row) == k ==> k in e && e[k] == reqs[i].row)
  {
    hide RowIs, Stands, Deleted;
    if n == 0 {
      RowsStart(t, reqs, k);
    } else {
      RowAfter(t, reqs, n - 1, k);
      StepAllNext(t, reqs, n - 1);
      if k in t { PresentAfter(t, reqs, n - 1, k); }
      RowsNext(t, reqs, n - 1, k, StepAll(t, reqs[..n - 1]), StepAll(t, reqs[..n]));
    }
  }

  lemma RowsStart(t: map<int, Row>, reqs: seq<Request>, k: int)
    ensures StepAll(t, reqs[..0]) == t && (k in t ==> RowIs(t, reqs, 0, k, t[k]))
  {
  }

  lemma RowsNext(t: map<int, Row>, reqs: seq<Request>, m: nat, k: int, a: map<int, Row>, b: map<int, Row>)
    requires Consistent(t, reqs) && m < |reqs|
    requires b == StepRow(a, reqs[m].kind, KeyOf(reqs[m].row), reqs[m].row)
    requires k in t ==> (k in a <==> !Deleted(reqs, m, k))
    requires k in a ==> RowIs(t, reqs, m, k, a[k])
    requires forall i :: 0 <= i < m && Stands(reqs, m, i) && KeyOf(reqs[i].row) == k ==> k in a && a[k] == reqs[i].row
    ensures k in b ==> RowIs(t, reqs, m + 1, k, b[k])
    ensures forall i :: 0 <= i < m + 1 && Stands(reqs, m + 1, i) && KeyOf(reqs[i].row) == k ==>
      k in b && b[k] == reqs[i].row
  {
    hide Stands, Deleted;
    forall i | 0 <= i <= m ensures Stands(reqs, m + 1, i) <==>
      if i == m then reqs[m].kind != Delete && !Deleted(reqs, m, KeyOf(reqs[m].row))
      else Stands(reqs, m, i) && KeyOf(reqs[m].row) != KeyOf(reqs[i].row)
    {
      StandsNext(reqs, m, i);
    }
    if reqs[m].kind == Insert { NeverDeleted(t, reqs, m, KeyOf(reqs[m].row)); }
    if k in b && KeyOf(reqs[m].row) == k {
      assert Stands(reqs, m + 1, m);
    }
  }

  lemma NeverDeleted(t: map<int, Row>, reqs: seq<Request>, n: nat, k: int)
    requires Consistent(t, reqs) && n <= |reqs| && k !in t
    ensures !Deleted(reqs, n, k)
  {
  }

  // ---- requests that meet their own batch ----

  /** One of the first n requests inserts the key. */
  predicate Inserted(reqs: seq<Request>, n: nat, k: int)
    requires n <= |reqs|
  {
    exists j :: 0 <= j < n && reqs[j].kind == Insert && KeyOf(reqs[j].row) == k
  }

  /** Request n inserts a key that the batch has inserted before, or deletes one that it has deleted. */
  predicate RepeatAt(reqs: seq<Request>, n: nat)
    requires n < |reqs|
  {
    || (reqs[n].kind == Insert && Inserted(reqs, n, KeyOf(reqs[n].row)))
    || (reqs[n].kind == Delete && Deleted(reqs, n, KeyOf(reqs[n].row)))
  }

  predicate Repeats(reqs: seq<Request>) {
    exists n :: 0 <= n < |reqs| && RepeatAt(reqs, n)
  }

  lemma {:induction false} PresentNew(t: map<int, Row>, reqs: seq<Request>, n: nat, k: int)
    requires Consistent(t, reqs) && n <= |reqs| && k !in t
    ensures k in StepAll(t, reqs[..n]) <==> Inserted(reqs, n, k)
  {
    if n > 0 {
      PresentNew(t, reqs, n - 1, k);
      StepAllNext(t, reqs, n - 1);
      assert Inserted(reqs, n, k) <==>
        Inserted(reqs, n - 1, k) || (reqs[n - 1].kind == Insert && KeyOf(reqs[n - 1].row) == k);
    }
  }

  /** A request can be applied where the ones before it have been, unless it repeats one of them. */
  lemma AppliesUnlessRepeat(t: map<int, Row>, reqs: seq<Request>, n: nat)
    requires Consistent(t, reqs) && n < |reqs|
    ensures RepeatAt(reqs, n) <==>
      || (reqs[n].kind == Insert && KeyOf(reqs[n].row) in StepAll(t, reqs[..n]))
      || (reqs[n].kind == Delete && KeyOf(reqs[n].row) !in StepAll(t, reqs[..n]))
  {
    var k := KeyOf(reqs[n].row);
    if reqs[n].kind == Insert { PresentNew(t, reqs, n, k); }
    if reqs[n].kind == Delete { PresentAfter(t, reqs, n, k); }
  }

  /** How many of the first n requests are inserts. */
  function Inserts(reqs: seq<Request>, n: nat): nat
    requires n <= |reqs|
  {
    if n == 0 then 0 else Inserts(reqs, n - 1) + if reqs[n - 1].kind == Insert then 1 else 0
  }

  // ---- unique columns ----

  /** No two rows share a value of the column. */
  ghost predicate KeysDistinct(t: map<int, Row>, col: nat) {
    forall k, l :: k in t && l in t && k != l && IsValue(CellAt(t[k], col)) ==>
      CellAt(t[k], col) != CellAt(t[l], col)
  }

  /** No other key's row has the value that this row brings. */
  ghost predicate RowFree(t: map<int, Row>, key: int, row: Row, col: nat) {
    IsValue(CellAt(row, col)) ==>
      forall l :: l in t && l != key ==> CellAt(row, col) != CellAt(t[l], col)
  }

  predicate BringsValue(reqs: seq<Request>, i: nat, col: nat)
    requires i < |reqs|
  {
    Stands(reqs, |reqs|, i) && IsValue(CellAt(reqs[i].row, col))
  }

  /** Rows that stand for different keys bring different values. */
  ghost predicate BatchDistinct(reqs: seq<Request>, col: nat) {
    forall i, j :: (0 <= i < |reqs| && 0 <= j < |reqs| && i != j
                    && BringsValue(reqs, i, col) && BringsValue(reqs, j, col)) ==>
      CellAt(reqs[i].row, col) != CellAt(reqs[j].row, col)
  }

  lemma RowsEnd(t: map<int, Row>, reqs: seq<Request>, k: int)
    requires Consistent(t, reqs)
    ensures var e := StepAll(t, reqs);
      && (k in e ==> RowIs(t, reqs, |reqs|, k, e[k]))
      && (forall i :: 0 <= i < |reqs| && Stands(reqs, |reqs|, i) && KeyOf(reqs[i].row) == k ==>
        k in e && e[k] == reqs[i].row)
  {
    RowAfter(t, reqs, |reqs|, k);
    assert reqs[..|reqs|] == reqs;
  }

  lemma PairDistinct(t: map<int, Row>, reqs: seq<Request>, col: nat, k: int, x: Row, l: int, y: Row)
    requires KeysDistinct(t, col) && BatchDistinct(reqs, col) && k != l
    requires RowIs(t, reqs, |reqs|, k, x) && RowIs(t, reqs, |reqs|, l, y) && IsValue(CellAt(x, col))
    requires forall i :: 0 <= i < |reqs| && reqs[i].kind != Delete ==> RowFree(t, KeyOf(reqs[i].row), reqs[i].row, col)
    ensures CellAt(x, col) != CellAt(y, col)
  {
    if i: nat :| i < |reqs| && Stands(reqs, |reqs|, i) && KeyOf(reqs[i].row) == k && reqs[i].row == x {
      assert RowFree(t, KeyOf(reqs[i].row), reqs[i].row, col) && BringsValue(reqs, i, col);
      if j: nat :| j < |reqs| && Stands(reqs, |reqs|, j) && KeyOf(reqs[j].row) == l && reqs[j].row == y {
        assert CellAt(x, col) == CellAt(y, col) ==> BringsValue(reqs, j, col);
      }
    }
  }

  /** A column that was unique stays so exactly when the batch's own standing rows are distinct in it. */
  lemma BatchKeepsUnique(t: map<int, Row>, reqs: seq<Request>, col: nat)
    requires Consistent(t, reqs) && KeysDistinct(t, col)
    requires forall i :: 0 <= i < |reqs| && reqs[i].kind != Delete ==> RowFree(t, KeyOf(reqs[i].row), reqs[i].row, col)
    ensures KeysDistinct(StepAll(t, reqs), col) <==> BatchDistinct(reqs, col)
  {
    hide RowIs, Stands, Deleted, StepAll, RowFree, Consistent, CellAt;
    var e := StepAll(t, reqs);
    if BatchDistinct(reqs, col) {
      forall k, l | k in e && l in e && k != l && IsValue(CellAt(e[k], col))
        ensures CellAt(e[k], col) != CellAt(e[l], col)
      {
        RowsEnd(t, reqs, k);
        RowsEnd(t, reqs, l);
        PairDistinct(t, reqs, col, k, e[k], l, e[l]);
      }
    }
    if KeysDistinct(e, col) {
      forall i, j | 0 <= i < |reqs| && 0 <= j < |reqs| && i != j
        && BringsValue(reqs, i, col) && BringsValue(reqs, j, col)
        ensures CellAt(reqs[i].row, col) != CellAt(reqs[j].row, col)
      {
        RowsEnd(t, reqs, KeyOf(reqs[i].row));
        RowsEnd(t, reqs, KeyOf(reqs[j].row));
        OneStands(reqs, i, j);
      }
    }
  }

  lemma OneStands(reqs: seq<Request>, i: nat, j: nat)
    requires i < |reqs| && j < |reqs| && Stands(reqs, |reqs|, i) && Stands(reqs, |reqs|, j) && i != j
    ensures KeyOf(reqs[i].row) != KeyOf(reqs[j].row)
  {
  }

  // ---- updates of deleted keys ----

  /** No stray update brings a value of the column. */
  ghost predicate NoStrayValue(reqs: seq<Request>, col: nat) {
    forall i :: 0 <= i < |reqs| && Stray(reqs, |reqs|, i) ==> !IsValue(CellAt(reqs[i].row, col))
  }

  lemma StrayNext(reqs: seq<Request>, n: nat, i: nat)
    requires i <= n < |reqs|
    ensures Stray(reqs, n + 1, i) <==>
      if i == n then reqs[n].kind == Update && Deleted(reqs, n, KeyOf(reqs[n].row))
      else Stray(reqs, n, i) && KeyOf(reqs[n].row) != KeyOf(reqs[i].row)
  {
    if i < n {
      assert Later(reqs, n + 1, i) <==> Later(reqs, n, i) || KeyOf(reqs[n].row) == KeyOf(reqs[i].row);
    }
  }
}
