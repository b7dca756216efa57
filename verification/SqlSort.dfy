/** ORDER BY (src/sql/exec.cpp:413-437): rows compared column by column, NULL first, and sorted stably. */
module SqlSort {
  import opened SqlSyntax
  import opened SqlFilter

  datatype SortKey = SortKey(col: nat, descending: bool)

  function CellOf(row: Row, col: nat): Value {
    if col < |row| then row[col] else NullValue
  }

  /** Negative, zero or positive: the first key column that differs decides. */
  function CompareRows(keys: seq<SortKey>, a: Row, b: Row): int {
    if keys == [] then 0 else
      var c := CompareCells(CellOf(a, keys[0].col), CellOf(b, keys[0].col));
      if c != 0 then (if keys[0].descending then -c else c) else CompareRows(keys[1..], a, b)
  }

  /** In front of the first row that may stand behind it: equal rows keep their order. */
  function InsertRow(keys: seq<SortKey>, x: Row, ys: seq<Row>): seq<Row> {
    if ys == [] || CompareRows(keys, x, ys[0]) <= 0 then [x] + ys else [ys[0]] + InsertRow(keys, x, ys[1..])
  }

  function SortRows(keys: seq<SortKey>, rows: seq<Row>): seq<Row> {
    if rows == [] then [] else InsertRow(keys, rows[0], SortRows(keys, rows[1..]))
  }

  lemma {:induction false} InsertMembers(keys: seq<SortKey>, x: Row, ys: seq<Row>)
    ensures forall r :: r in InsertRow(keys, x, ys) ==> r == x || r in ys
  {
    if ys != [] && CompareRows(keys, x, ys[0]) > 0 {
      InsertMembers(keys, x, ys[1..]);
    }
  }

  lemma {:induction false} SortMembers(keys: seq<SortKey>, rows: seq<Row>)
    ensures forall r :: r in SortRows(keys, rows) ==> r in rows
  {
    if rows != [] {
      SortMembers(keys, rows[1..]);
      InsertMembers(keys, rows[0], SortRows(keys, rows[1..]));
    }
  }

  // ---- the order of rows ----

  lemma {:induction false} TextOrder(x: string, y: string, z: string)
    ensures CompareText(x, y) == -CompareText(y, x)
    ensures CompareText(x, y) <= 0 && CompareText(y, z) <= 0 ==> CompareText(x, z) <= 0
    ensures CompareText(x, y) == 0 && CompareText(y, z) == 0 ==> CompareText(x, z) == 0
    ensures CompareText(x, y) <= 0 && CompareText(y, z) <= 0 && CompareText(x, z) == 0 ==>
              CompareText(x, y) == 0 && CompareText(y, z) == 0
  {
    if x != "" && y != "" {
      TextOrder(x[1..], y[1..], if z == "" then "" else z[1..]);
    }
  }

  predicate SameKind(a: Value, text: bool) {
    a == NullValue || (if text then a.TextValue? else a.IntValue?)
  }

  lemma CellOrder(a: Value, b: Value, c: Value, text: bool)
    requires SameKind(a, text) && SameKind(b, text) && SameKind(c, text)
    ensures CompareCells(a, b) == -CompareCells(b, a)
    ensures CompareCells(a, b) <= 0 && CompareCells(b, c) <= 0 ==> CompareCells(a, c) <= 0
    ensures CompareCells(a, b) == 0 && CompareCells(b, c) == 0 ==> CompareCells(a, c) == 0
    ensures CompareCells(a, b) <= 0 && CompareCells(b, c) <= 0 && CompareCells(a, c) == 0 ==>
              CompareCells(a, b) == 0 && CompareCells(b, c) == 0
  {
    if a.TextValue? && b.TextValue? {
      TextOrder(a.s, b.s, if c.TextValue? then c.s else "");
    }
  }

  /** Whether the column with this number holds text; a number out of range reads as NULL throughout. */
  predicate IsText(s: Schema, col: nat) {
    col < |s.cols| && s.cols[col].kind == Text
  }

  /** On rows of one table the comparison is a total preorder. */
  lemma {:induction false} RowOrder(s: Schema, keys: seq<SortKey>, a: Row, b: Row, c: Row)
    requires RowOk(s, a) && RowOk(s, b) && RowOk(s, c)
    ensures CompareRows(keys, a, b) == -CompareRows(keys, b, a)
    ensures CompareRows(keys, a, b) <= 0 && CompareRows(keys, b, c) <= 0 ==> CompareRows(keys, a, c) <= 0
    ensures CompareRows(keys, a, b) == 0 && CompareRows(keys, b, c) == 0 ==> CompareRows(keys, a, c) == 0
    ensures CompareRows(keys, a, b) <= 0 && CompareRows(keys, b, c) <= 0 && CompareRows(keys, a, c) == 0 ==>
              CompareRows(keys, a, b) == 0 && CompareRows(keys, b, c) == 0
  {
    hide CompareCells;
    if keys != [] {
      var k := keys[0].col;
      CellOrder(CellOf(a, k), CellOf(b, k), CellOf(c, k), IsText(s, k));
      CellOrder(CellOf(c, k), CellOf(b, k), CellOf(a, k), IsText(s, k));
      CellOrder(CellOf(a, k), CellOf(c, k), CellOf(b, k), IsText(s, k));
      RowOrder(s, keys[1..], a, b, c);
    }
  }

  // ---- sorted, and stable ----

  ghost predicate Sorted(keys: seq<SortKey>, rows: seq<Row>) {
    forall i, j :: 0 <= i < j < |rows| ==> CompareRows(keys, rows[i], rows[j]) <= 0
  }

  ghost predicate AllRowsOk(s: Schema, rows: seq<Row>) {
    forall i :: 0 <= i < |rows| ==> RowOk(s, rows[i])
  }

  /** The rows that compare equal to r, in their order. */
  function Equals(keys: seq<SortKey>, r: Row, rows: seq<Row>): seq<Row> {
    if rows == [] then []
    else (if CompareRows(keys, r, rows[0]) == 0 then [rows[0]] else []) + Equals(keys, r, rows[1..])
  }

  ghost predicate SameGroups(s: Schema, keys: seq<SortKey>, a: seq<Row>, b: seq<Row>) {
    forall r :: RowOk(s, r) ==> Equals(keys, r, a) == Equals(keys, r, b)
  }

  lemma {:induction false} InsertSorts(s: Schema, keys: seq<SortKey>, x: Row, ys: seq<Row>)
    requires RowOk(s, x) && AllRowsOk(s, ys) && Sorted(keys, ys)
    ensures var out := InsertRow(keys, x, ys);
      && Sorted(keys, out) && AllRowsOk(s, out) && |out| == |ys| + 1
      && forall i :: 0 <= i < |out| ==> out[i] == x || out[i] in ys
  {
    hide CompareRows, RowOk;
    if ys != [] {
      RowOrder(s, keys, x, ys[0], x);
      if CompareRows(keys, x, ys[0]) <= 0 {
        forall j | 0 <= j < |ys| ensures CompareRows(keys, x, ys[j]) <= 0 {
          RowOrder(s, keys, x, ys[0], ys[j]);
        }
      } else {
        InsertSorts(s, keys, x, ys[1..]);
        var rest := InsertRow(keys, x, ys[1..]);
        forall j | 0 <= j < |rest| ensures CompareRows(keys, ys[0], rest[j]) <= 0 {
          if rest[j] != x {
            var m :| 0 <= m < |ys[1..]| && ys[1..][m] == rest[j];
            assert ys[m + 1] == rest[j];
          }
        }
      }
    }
  }

  lemma {:induction false} InsertGroups(s: Schema, keys: seq<SortKey>, x: Row, ys: seq<Row>, r: Row)
    requires RowOk(s, x) && AllRowsOk(s, ys) && RowOk(s, r)
    ensures Equals(keys, r, InsertRow(keys, x, ys))
      == (if CompareRows(keys, r, x) == 0 then [x] else []) + Equals(keys, r, ys)
  {
    hide CompareRows, RowOk;
    var out := InsertRow(keys, x, ys);
    if ys == [] || CompareRows(keys, x, ys[0]) <= 0 {
      assert out[1..] == ys;
    } else {
      InsertGroups(s, keys, x, ys[1..], r);
      assert out[0] == ys[0] && out[1..] == InsertRow(keys, x, ys[1..]);
      RowOrder(s, keys, r, x, ys[0]);
      RowOrder(s, keys, x, r, ys[0]);
    }
  }

  /** The result is sorted, and rows that compare equal are all there in their old order. */
  lemma {:induction false} SortsStably(s: Schema, keys: seq<SortKey>, rows: seq<Row>)
    requires AllRowsOk(s, rows)
    ensures Sorted(keys, SortRows(keys, rows)) && AllRowsOk(s, SortRows(keys, rows))
    ensures SameGroups(s, keys, rows, SortRows(keys, rows))
  {
    hide CompareRows, RowOk, InsertRow;
    if rows != [] {
      SortsStably(s, keys, rows[1..]);
      var rest := SortRows(keys, rows[1..]);
      InsertSorts(s, keys, rows[0], rest);
      forall r | RowOk(s, r) ensures Equals(keys, r, rows) == Equals(keys, r, SortRows(keys, rows)) {
        InsertGroups(s, keys, rows[0], rest, r);
      }
    }
  }

  lemma {:induction false} GroupMember(keys: seq<SortKey>, r: Row, rows: seq<Row>)
    requires Equals(keys, r, rows) != []
    ensures exists j :: 0 <= j < |rows| && CompareRows(keys, r, rows[j]) == 0
  {
    hide CompareRows;
    if CompareRows(keys, r, rows[0]) != 0 {
      GroupMember(keys, r, rows[1..]);
      var j :| 0 <= j < |rows[1..]| && CompareRows(keys, r, rows[1..][j]) == 0;
      assert rows[j + 1] == rows[1..][j];
    }
  }

  lemma HeadsEqual(s: Schema, keys: seq<SortKey>, a: seq<Row>, b: seq<Row>)
    requires AllRowsOk(s, a) && AllRowsOk(s, b) && Sorted(keys, b) && SameGroups(s, keys, a, b) && a != []
    ensures b != [] && CompareRows(keys, b[0], a[0]) <= 0
  {
    hide CompareRows, RowOk;
    RowOrder(s, keys, a[0], a[0], a[0]);
    assert Equals(keys, a[0], a) != [];
    assert Equals(keys, a[0], b) != [];
    GroupMember(keys, a[0], b);
    var j :| 0 <= j < |b| && CompareRows(keys, a[0], b[j]) == 0;
    RowOrder(s, keys, b[0], b[j], a[0]);
    RowOrder(s, keys, b[j], a[0], b[0]);
    RowOrder(s, keys, b[0], b[0], b[0]);
  }

  /** There is only one stable sorting: any library's stable sort gives this one. */
  lemma {:induction false} StableSortUnique(s: Schema, keys: seq<SortKey>, a: seq<Row>, b: seq<Row>)
    requires AllRowsOk(s, a) && AllRowsOk(s, b) && Sorted(keys, a) && Sorted(keys, b) && SameGroups(s, keys, a, b)
    ensures a == b
  {
    hide CompareRows, RowOk;
    if a != [] {
      HeadsEqual(s, keys, a, b);
      HeadsEqual(s, keys, b, a);
      RowOrder(s, keys, a[0], b[0], a[0]);
      RowOrder(s, keys, a[0], a[0], a[0]);
      assert Equals(keys, a[0], a)[0] == a[0] && Equals(keys, a[0], b)[0] == b[0];
      assert a[0] == b[0];
      forall r | RowOk(s, r) ensures Equals(keys, r, a[1..]) == Equals(keys, r, b[1..]) {
        var head := if CompareRows(keys, r, a[0]) == 0 then [a[0]] else [];
        assert Equals(keys, r, a) == head + Equals(keys, r, a[1..])
          && Equals(keys, r, b) == head + Equals(keys, r, b[1..]);
        assert Equals(keys, r, a[1..]) == Equals(keys, r, a)[|head|..];
        assert Equals(keys, r, b[1..]) == Equals(keys, r, b)[|head|..];
      }
      StableSortUnique(s, keys, a[1..], b[1..]);
      assert a == [a[0]] + a[1..] && b == [b[0]] + b[1..];
    } else if b != [] {
      HeadsEqual(s, keys, b, a);
    }
  }
}
