/** What a WHERE condition means, without the executor's functions: which rows satisfy it, and which it cannot be
    evaluated on; and what ORDER BY compares (src/sql/exec.cpp:86-258, 413-437). */
module SqlMeaning {
  import opened Errors
  import opened SqlFilter
  import opened SqlSort
  import opened SqlSyntax

  // ---- values ----

  /** A proper prefix, or the smaller character at the first difference. */
  ghost predicate TextBefore(x: string, y: string) {
    exists n: nat :: DiffersAt(x, y, n)
  }

  predicate DiffersAt(x: string, y: string, n: nat) {
    n <= |x| && n < |y| && x[..n] == y[..n] && (n == |x| || x[n] < y[n])
  }

  ghost predicate Before(a: Value, b: Value) {
    || (a.IntValue? && b.IntValue? && a.i < b.i)
    || (a.TextValue? && b.TextValue? && TextBefore(a.s, b.s))
  }

  ghost predicate Related(op: CompareOp, a: Value, b: Value) {
    match op
    case Eq => a == b
    case Ne => a != b
    case Lt => Before(a, b)
    case Le => a == b || Before(a, b)
    case Gt => Before(b, a)
    case Ge => a == b || Before(b, a)
  }

  predicate Comparable(a: Value, b: Value) {
    (a.IntValue? && b.IntValue?) || (a.TextValue? && b.TextValue?)
  }

  lemma {:induction false} TextCompare(x: string, y: string)
    ensures CompareText(x, y) < 0 <==> TextBefore(x, y)
    ensures CompareText(x, y) > 0 <==> TextBefore(y, x)
    ensures CompareText(x, y) == 0 <==> x == y
  {
    if x != "" && y != "" {
      TextCompare(x[1..], y[1..]);
      if x[0] == y[0] {
        TextTail(x, y);
        TextTail(y, x);
        assert x == [x[0]] + x[1..] && y == [y[0]] + y[1..];
      } else {
        TextHeads(x, y);
        TextHeads(y, x);
      }
    } else {
      if x == "" && y != "" { assert DiffersAt(x, y, 0); }
      if y == "" && x != "" { assert DiffersAt(y, x, 0); }
    }
  }

  lemma TextHeads(x: string, y: string)
    requires x != "" && y != "" && x[0] != y[0]
    ensures TextBefore(x, y) <==> x[0] < y[0]
  {
    if x[0] < y[0] { assert DiffersAt(x, y, 0); }
    if TextBefore(x, y) {
      var n: nat :| DiffersAt(x, y, n);
      assert n > 0 ==> x[..n][0] == y[..n][0];
    }
  }

  lemma TextTail(x: string, y: string)
    requires x != "" && y != "" && x[0] == y[0]
    ensures TextBefore(x, y) <==> TextBefore(x[1..], y[1..])
  {
    var a, b := x[1..], y[1..];
    if TextBefore(x, y) {
      var n: nat :| DiffersAt(x, y, n);
      assert a[..n - 1] == x[..n][1..] && b[..n - 1] == y[..n][1..];
      assert DiffersAt(a, b, n - 1);
    }
    if TextBefore(a, b) {
      var n: nat :| DiffersAt(a, b, n);
      assert x[..n + 1] == [x[0]] + a[..n] && y[..n + 1] == [y[0]] + b[..n];
      assert DiffersAt(x, y, n + 1);
    }
  }

  /** The six comparisons are the relations of integers and of texts. */
  lemma MeetsMeans(op: CompareOp, a: Value, b: Value)
    requires Comparable(a, b)
    ensures Meets(op, CompareCells(a, b)) <==> Related(op, a, b)
  {
    if a.TextValue? { TextCompare(a.s, b.s); }
  }

  /** What a literal stands for in a column: numbers for numbers, 0 and 1 for truth values, texts as spelled. */
  predicate Denotes(s: Schema, col: Col, v: Value, x: Value) {
    match v
    case NullValue => false
    case TextValue(t) => if col.kind == Text then x == v else s.parseInt(t).Some? && x == IntValue(s.parseInt(t).value)
    case IntValue(_) => col.kind != Text && x == v
    case BoolValue(b) => col.kind != Text && (if b then x == IntValue(1) else x == IntValue(0))
  }

  predicate InColumn(kind: ColType, x: Value) {
    match kind
    case Int8 => x.IntValue? && -0x80 <= x.i < 0x80
    case Int16 => x.IntValue? && -0x8000 <= x.i < 0x8000
    case Int32 => x.IntValue? && -0x8000_0000 <= x.i < 0x8000_0000
    case Int64 => x.IntValue?
    case Timestamp => x.IntValue?
    case Bool => x == IntValue(0) || x == IntValue(1)
    case Text => x.TextValue?
  }

  /** A literal is accepted exactly when it stands for a value of the column; NULL where the column takes it. */
  lemma CoerceMeans(s: Schema, v: Value, col: Col, x: Value)
    ensures v != NullValue ==> (CoerceLiteral(s, v, col) == Success(x) <==>
      Denotes(s, col, v, x) && InColumn(col.kind, x))
    ensures v == NullValue ==>
      CoerceLiteral(s, v, col) == if col.nullable then Success(v) else Failure(InvalidArgument)
    ensures CoerceLiteral(s, v, col).Failure? ==> CoerceLiteral(s, v, col).error == InvalidArgument
  {
  }

  // ---- conditions ----

  /** The first column of that name. */
  predicate Named(s: Schema, name: string, i: nat) {
    i < |s.cols| && s.cols[i].name == name && forall j :: 0 <= j < i ==> s.cols[j].name != name
  }

  lemma {:induction false} IndexNamed(s: Schema, name: string, from: nat)
    requires from <= |s.cols| && forall j :: 0 <= j < from ==> s.cols[j].name != name
    ensures var r := IndexFrom(s.cols, name, from);
      (forall i: nat :: r == Some(i) <==> Named(s, name, i)) && (r == None <==> forall i: nat :: !Named(s, name, i))
    decreases |s.cols| - from
  {
    if from < |s.cols| && s.cols[from].name != name { IndexNamed(s, name, from + 1); }
    if from < |s.cols| && s.cols[from].name == name { assert Named(s, name, from); }
  }

  lemma IndexMeans(s: Schema, name: string)
    ensures forall i: nat :: IndexOf(s, name) == Some(i) <==> Named(s, name, i)
    ensures IndexOf(s, name) == None <==> forall i: nat :: !Named(s, name, i)
  {
    IndexNamed(s, name, 0);
  }

  /** The comparison holds of the cell: neither side is NULL and they are related. */
  ghost predicate CellMeets(s: Schema, col: Col, cell: Value, op: CompareOp, value: Value) {
    cell != NullValue && exists x :: Denotes(s, col, value, x) && InColumn(col.kind, x) && Related(op, cell, x)
  }

  ghost predicate Satisfies(s: Schema, row: Row, c: Condition) {
    match c
    case Compare(column, op, value) =>
      exists i: nat :: i < |row| && Named(s, column, i) && CellMeets(s, s.cols[i], row[i], op, value)
    case IsNull(column) => exists i: nat :: i < |row| && Named(s, column, i) && row[i] == NullValue
    case IsNotNull(column) => exists i: nat :: i < |row| && Named(s, column, i) && row[i] != NullValue
    case NotOf(d) => !Satisfies(s, row, d)
    case AndOf(cs) => forall i :: 0 <= i < |cs| ==> Satisfies(s, row, cs[i])
    case OrOf(cs) => exists i :: 0 <= i < |cs| && Satisfies(s, row, cs[i])
  }

  /** Some part names no column, or compares a cell that is not NULL with a literal that the column does not take. */
  ghost predicate Unfit(s: Schema, row: Row, c: Condition) {
    match c
    case Compare(column, _, value) =>
      || (forall i: nat :: !Named(s, column, i))
      || (exists i: nat :: i < |row| && Named(s, column, i) && row[i] != NullValue && value != NullValue
                           && forall x :: !(Denotes(s, s.cols[i], value, x) && InColumn(s.cols[i].kind, x)))
    case IsNull(column) => forall i: nat :: !Named(s, column, i)
    case IsNotNull(column) => forall i: nat :: !Named(s, column, i)
    case NotOf(d) => Unfit(s, row, d)
    case AndOf(cs) => exists i :: 0 <= i < |cs| && Unfit(s, row, cs[i])
    case OrOf(cs) => exists i :: 0 <= i < |cs| && Unfit(s, row, cs[i])
  }

  lemma CompareMeans(s: Schema, row: Row, column: string, op: CompareOp, value: Value)
    requires RowOk(s, row)
    ensures var c := Compare(column, op, value);
      EvalCompare(s, row, column, op, value)
        == if Unfit(s, row, c) then Failure(InvalidArgument) else Success(Satisfies(s, row, c))
  {
    IndexMeans(s, column);
    var c := Compare(column, op, value);
    match IndexOf(s, column)
    case None =>
    case Some(i) =>
      assert Named(s, column, i) && forall j: nat :: Named(s, column, j) ==> j == i;
      var col := s.cols[i];
      CellMeans(s, col, row[i], op, value);
      assert Satisfies(s, row, c) <==> CellMeets(s, col, row[i], op, value);
      assert Unfit(s, row, c) <==> row[i] != NullValue && value != NullValue
                                   && forall x :: !(Denotes(s, col, value, x) && InColumn(col.kind, x));
  }

  lemma CellMeans(s: Schema, col: Col, cell: Value, op: CompareOp, value: Value)
    requires cell == NullValue || (if col.kind == Text then cell.TextValue? else cell.IntValue?)
    ensures value == NullValue || cell == NullValue ==> !CellMeets(s, col, cell, op, value)
    ensures value != NullValue ==>
      (CoerceLiteral(s, value, col).Failure? <==> forall x :: !(Denotes(s, col, value, x) && InColumn(col.kind, x)))
    ensures CoerceLiteral(s, value, col).Failure? ==> CoerceLiteral(s, value, col).error == InvalidArgument
    ensures value != NullValue && cell != NullValue && CoerceLiteral(s, value, col).Success? ==>
      (Meets(op, CompareCells(cell, CoerceLiteral(s, value, col).value)) <==> CellMeets(s, col, cell, op, value))
  {
    hide Related, Meets, CompareCells;
    forall x ensures value != NullValue ==>
      (CoerceLiteral(s, value, col) == Success(x) <==> Denotes(s, col, value, x) && InColumn(col.kind, x))
    {
      CoerceMeans(s, value, col, x);
    }
    CoerceMeans(s, value, col, value);
    if value != NullValue && cell != NullValue && CoerceLiteral(s, value, col).Success? {
      MeetsMeans(op, cell, CoerceLiteral(s, value, col).value);
    }
  }

  /** Evaluation is the meaning: for every row of the table and every condition, checked beforehand or not. */
  lemma {:induction false} EvalMeans(s: Schema, row: Row, c: Condition)
    requires RowOk(s, row)
    ensures EvalCondition(s, row, c) == if Unfit(s, row, c) then Failure(InvalidArgument)
      else Success(Satisfies(s, row, c))
    decreases c, 0
  {
    match c
    case Compare(column, op, value) => CompareMeans(s, row, column, op, value);
    case IsNull(column) => NullMeans(s, row, column);
    case IsNotNull(column) => NullMeans(s, row, column);
    case NotOf(d) => EvalMeans(s, row, d);
    case AndOf(cs) => AllMeans(s, row, c, cs, true, true);
    case OrOf(cs) => AllMeans(s, row, c, cs, false, false);
  }

  lemma NullMeans(s: Schema, row: Row, column: string)
    requires RowOk(s, row)
    ensures EvalNull(s, row, column, false)
      == if Unfit(s, row, IsNull(column)) then Failure(InvalidArgument) else Success(Satisfies(s, row, IsNull(column)))
    ensures EvalNull(s, row, column, true)
      == if Unfit(s, row, IsNotNull(column)) then Failure(InvalidArgument)
         else Success(Satisfies(s, row, IsNotNull(column)))
  {
    IndexMeans(s, column);
    match IndexOf(s, column)
    case None =>
    case Some(i) => assert Named(s, column, i) && forall j: nat :: Named(s, column, j) ==> j == i;
  }

  lemma TailSome(s: Schema, row: Row, cs: seq<Condition>)
    requires cs != []
    ensures (exists i :: 0 <= i < |cs| && Unfit(s, row, cs[i]))
       <==> Unfit(s, row, cs[0]) || exists i :: 0 <= i < |cs[1..]| && Unfit(s, row, cs[1..][i])
    ensures (exists i :: 0 <= i < |cs| && Satisfies(s, row, cs[i]))
       <==> Satisfies(s, row, cs[0]) || exists i :: 0 <= i < |cs[1..]| && Satisfies(s, row, cs[1..][i])
  {
    hide Unfit, Satisfies;
    if i: nat :| i < |cs| && Unfit(s, row, cs[i]) && i > 0 { assert Unfit(s, row, cs[1..][i - 1]); }
    if i: nat :| i < |cs| && Satisfies(s, row, cs[i]) && i > 0 { assert Satisfies(s, row, cs[1..][i - 1]); }
    if i: nat :| i < |cs| - 1 && Unfit(s, row, cs[1..][i]) { assert Unfit(s, row, cs[i + 1]); }
    if i: nat :| i < |cs| - 1 && Satisfies(s, row, cs[1..][i]) { assert Satisfies(s, row, cs[i + 1]); }
  }

  lemma {:induction false} AllMeans(s: Schema, row: Row, parent: Condition, cs: seq<Condition>, isAnd: bool, acc: bool)
    requires RowOk(s, row) && forall i :: 0 <= i < |cs| ==> cs[i] < parent
    ensures EvalAll(s, row, parent, cs, isAnd, acc)
      == if exists i :: 0 <= i < |cs| && Unfit(s, row, cs[i]) then Failure(InvalidArgument)
         else Success(if isAnd then acc && forall i :: 0 <= i < |cs| ==> Satisfies(s, row, cs[i])
                      else acc || exists i :: 0 <= i < |cs| && Satisfies(s, row, cs[i]))
    decreases parent, 0, |cs|
  {
    hide Unfit, Satisfies;
    if cs != [] {
      EvalMeans(s, row, cs[0]);
      assert forall i :: 0 <= i < |cs| - 1 ==> cs[1..][i] == cs[i + 1];
      TailSome(s, row, cs);
      if !Unfit(s, row, cs[0]) {
        var v := Satisfies(s, row, cs[0]);
        AllMeans(s, row, parent, cs[1..], isAnd, if isAnd then acc && v else acc || v);
      }
    }
  }

  // ---- whole tables ----

  ghost predicate Selected(s: Schema, filter: Option<Condition>, row: Row) {
    filter == None || (!Unfit(s, row, filter.value) && Satisfies(s, row, filter.value))
  }

  lemma {:induction false} KeepMembers(rows: seq<Row>, p: Row -> bool)
    ensures forall r :: r in Keep(rows, p) <==> r in rows && p(r)
  {
    if rows != [] { KeepMembers(rows[1..], p); }
  }

  lemma InFront(s: Schema, row: Row, rest: seq<Row>)
    requires TableOk(s, rest) && RowOk(s, row) && forall r: Row :: r in rest ==> RowOk(s, r) && row[0].i < r[0].i
    ensures TableOk(s, [row] + rest)
  {
    var out := [row] + rest;
    forall i, j | 0 <= i < j < |out| ensures KeyAt(out, i) < KeyAt(out, j) {
      assert out[j] == rest[j - 1] && rest[j - 1] in rest;
      if i > 0 { assert KeyAt(rest, i - 1) < KeyAt(rest, j - 1); }
    }
  }

  lemma {:induction false} KeepAscends(s: Schema, table: seq<Row>, p: Row -> bool)
    requires TableOk(s, table)
    ensures TableOk(s, Keep(table, p))
  {
    hide RowOk, TableOk;
    if table != [] {
      TailOk(s, table);
      KeepAscends(s, table[1..], p);
      KeepMembers(table[1..], p);
      var rest := Keep(table[1..], p);
      assert [] + rest == rest;
      if p(table[0]) { InFront(s, table[0], rest); }
    }
  }

  /** What a query's filter leaves of a table are the rows that satisfy it, still by ascending key. */
  lemma MatchesMeans(s: Schema, table: seq<Row>, filter: Option<Condition>)
    requires TableOk(s, table)
    ensures forall r :: r in Matches(s, table, filter) <==> r in table && Selected(s, filter, r)
    ensures TableOk(s, Matches(s, table, filter))
  {
    hide EvalCondition, Satisfies, Unfit;
    KeepMembers(table, Passer(s, filter));
    KeepAscends(s, table, Passer(s, filter));
    forall r | r in table ensures Passes(s, filter, r) <==> Selected(s, filter, r) {
      var i :| 0 <= i < |table| && table[i] == r;
      assert RowOk(s, table[i]);
      if filter.Some? { EvalMeans(s, r, filter.value); }
    }
  }

  // ---- ORDER BY ----

  /** NULL comes before everything else. */
  ghost predicate CellBefore(a: Value, b: Value) {
    (a == NullValue && b != NullValue) || Before(a, b)
  }

  ghost predicate SameOn(keys: seq<SortKey>, a: Row, b: Row, n: nat)
    requires n <= |keys|
  {
    forall j :: 0 <= j < n ==> CellOf(a, keys[j].col) == CellOf(b, keys[j].col)
  }

  lemma CellsCompare(a: Value, b: Value, text: bool)
    requires SameKind(a, text) && SameKind(b, text)
    ensures CompareCells(a, b) < 0 <==> CellBefore(a, b)
    ensures CompareCells(a, b) > 0 <==> CellBefore(b, a)
    ensures CompareCells(a, b) == 0 <==> a == b
  {
    if a.TextValue? && b.TextValue? { TextCompare(a.s, b.s); }
  }

  /** The first column in which two rows differ decides: the smaller cell first, in a descending column the larger. */
  lemma {:induction false} OrderMeans(s: Schema, keys: seq<SortKey>, a: Row, b: Row, n: nat)
    requires RowOk(s, a) && RowOk(s, b) && n <= |keys| && SameOn(keys, a, b, n)
    requires n < |keys| ==> CellOf(a, keys[n].col) != CellOf(b, keys[n].col)
    ensures n == |keys| ==> CompareRows(keys, a, b) == 0
    ensures n < |keys| ==>
      var x, y := CellOf(a, keys[n].col), CellOf(b, keys[n].col);
      && (CompareRows(keys, a, b) < 0 <==> if keys[n].descending then CellBefore(y, x) else CellBefore(x, y))
      && (CompareRows(keys, a, b) > 0 <==> if keys[n].descending then CellBefore(x, y) else CellBefore(y, x))
    decreases n
  {
    hide CompareCells, Before;
    if keys != [] {
      var k := keys[0].col;
      CellsCompare(CellOf(a, k), CellOf(b, k), IsText(s, k));
      if n > 0 {
        assert forall j :: 0 <= j < n - 1 ==> keys[1..][j] == keys[j + 1];
        OrderMeans(s, keys[1..], a, b, n - 1);
      }
    }
  }
}
