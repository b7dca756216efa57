/** Evaluating WHERE conditions and narrowing the key range (src/sql/exec.cpp:86-363). The first column is
    the integer key. How text spells an integer is left to a parameter. */
module SqlFilter {
  import opened Errors
  import opened SqlSyntax

  datatype ColType = Int8 | Int16 | Int32 | Int64 | Bool | Timestamp | Text

  datatype Col = Col(name: string, kind: ColType, nullable: bool)

  datatype Schema = Schema(cols: seq<Col>, parseInt: string -> Option<int>)

  type Row = seq<Value>

  function IndexFrom(cols: seq<Col>, name: string, i: nat): (r: Option<nat>)
    requires i <= |cols|
    ensures r.Some? ==> i <= r.value < |cols| && cols[r.value].name == name
    ensures r == None ==> forall j :: i <= j < |cols| ==> cols[j].name != name
    decreases |cols| - i
  {
    if i == |cols| then None else if cols[i].name == name then Some(i) else IndexFrom(cols, name, i + 1)
  }

  function IndexOf(s: Schema, name: string): (r: Option<nat>)
    ensures r.Some? ==> r.value < |s.cols| && s.cols[r.value].name == name
  {
    IndexFrom(s.cols, name, 0)
  }

  /** The range an integer column type holds. */
  predicate Fits(kind: ColType, v: int) {
    match kind
    case Int8 => -128 <= v <= 127
    case Int16 => -32768 <= v <= 32767
    case Int32 => -0x8000_0000 <= v <= 0x7FFF_FFFF
    case Bool => v == 0 || v == 1
    case _ => true
  }

  function CoerceLiteral(s: Schema, v: Value, col: Col): Result<Value> {
    if v == NullValue then (if col.nullable then Success(NullValue) else Failure(InvalidArgument))
    else if col.kind == Text then (if v.TextValue? then Success(v) else Failure(InvalidArgument))
    else
      var i := match v
               case IntValue(i) => Some(i)
               case BoolValue(b) => Some(if b then 1 else 0)
               case TextValue(t) => s.parseInt(t)
               case NullValue => None;
      if i == None || !Fits(col.kind, i.value) then Failure(InvalidArgument) else Success(IntValue(i.value))
  }

  function CompareInts(x: int, y: int): int {
    if x < y then -1 else if x > y then 1 else 0
  }

  function CompareText(x: string, y: string): int {
    if x == "" then (if y == "" then 0 else -1)
    else if y == "" then 1
    else if x[0] != y[0] then (if x[0] < y[0] then -1 else 1)
    else CompareText(x[1..], y[1..])
  }

  /** -1, 0 or 1 for two values of one column; NULL is the smallest. */
  function CompareCells(a: Value, b: Value): int {
    match (a, b)
    case (NullValue, NullValue) => 0
    case (NullValue, _) => -1
    case (_, NullValue) => 1
    case (IntValue(x), IntValue(y)) => CompareInts(x, y)
    case (TextValue(x), TextValue(y)) => CompareText(x, y)
    case _ => 0
  }

  function Meets(op: CompareOp, cmp: int): bool {
    match op
    case Eq => cmp == 0
    case Ne => cmp != 0
    case Lt => cmp < 0
    case Le => cmp <= 0
    case Gt => cmp > 0
    case Ge => cmp >= 0
  }

  /** A row as the table returns it: one value per column, the key never NULL, of the column's kind. */
  predicate RowOk(s: Schema, row: Row) {
    && |row| == |s.cols| > 0 && row[0].IntValue?
    && forall i :: 0 <= i < |row| ==>
         (row[i] == NullValue || (if s.cols[i].kind == Text then row[i].TextValue? else row[i].IntValue?))
  }

  // ---- evaluation ----

  function EvalCompare(s: Schema, row: Row, column: string, op: CompareOp, value: Value): Result<bool>
    requires |row| == |s.cols|
  {
    match IndexOf(s, column)
    case None => Failure(InvalidArgument)
    case Some(i) =>
      if value == NullValue || row[i] == NullValue then Success(false)
      else match CoerceLiteral(s, value, s.cols[i])
           case Failure(e) => Failure(e)
           case Success(lit) => Success(Meets(op, CompareCells(row[i], lit)))
  }

  function EvalNull(s: Schema, row: Row, column: string, negate: bool): Result<bool>
    requires |row| == |s.cols|
  {
    match IndexOf(s, column)
    case None => Failure(InvalidArgument)
    case Some(i) => Success((row[i] == NullValue) != negate)
  }

  /** Two-valued: an unknown comparison is false before NOT sees it. Every operand is evaluated, so an
      error is never hidden by an earlier result. */
  function EvalCondition(s: Schema, row: Row, c: Condition): Result<bool>
    requires |row| == |s.cols|
    decreases c, 0
  {
    match c
    case Compare(column, op, value) => EvalCompare(s, row, column, op, value)
    case IsNull(column) => EvalNull(s, row, column, false)
    case IsNotNull(column) => EvalNull(s, row, column, true)
    case NotOf(d) =>
      var v := EvalCondition(s, row, d);
      if v.Failure? then v else Success(!v.value)
    case AndOf(cs) => EvalAll(s, row, c, cs, true, true)
    case OrOf(cs) => EvalAll(s, row, c, cs, false, false)
  }

  function EvalAll(s: Schema, row: Row, parent: Condition, cs: seq<Condition>, isAnd: bool, acc: bool): Result<bool>
    requires |row| == |s.cols| && forall i :: 0 <= i < |cs| ==> cs[i] < parent
    decreases parent, 0, |cs|
  {
    if cs == [] then Success(acc) else
      var v := EvalCondition(s, row, cs[0]);
      if v.Failure? then v
      else EvalAll(s, row, parent, cs[1..], isAnd, if isAnd then acc && v.value else acc || v.value)
  }

  /** Known columns and literals that coerce: what a condition needs never to fail. */
  predicate Checked(s: Schema, c: Condition) {
    match c
    case Compare(column, _, value) =>
      IndexOf(s, column).Some? && (value != NullValue ==>
        CoerceLiteral(s, value, s.cols[IndexOf(s, column).value]).Success?)
    case IsNull(column) => IndexOf(s, column).Some?
    case IsNotNull(column) => IndexOf(s, column).Some?
    case NotOf(d) => Checked(s, d)
    case AndOf(cs) => forall i :: 0 <= i < |cs| ==> Checked(s, cs[i])
    case OrOf(cs) => forall i :: 0 <= i < |cs| ==> Checked(s, cs[i])
  }

  lemma {:induction false} CheckedNeverFails(s: Schema, row: Row, c: Condition)
    requires |row| == |s.cols| && Checked(s, c)
    ensures EvalCondition(s, row, c).Success?
    decreases c, 0
  {
    match c
    case NotOf(d) => CheckedNeverFails(s, row, d);
    case AndOf(cs) => AllCheckedNeverFail(s, row, c, cs, true, true);
    case OrOf(cs) => AllCheckedNeverFail(s, row, c, cs, false, false);
    case _ =>
  }

  lemma {:induction false} AllCheckedNeverFail(s: Schema, row: Row, parent: Condition, cs: seq<Condition>, isAnd: bool,
      acc: bool)
    requires |row| == |s.cols| && forall i :: 0 <= i < |cs| ==> cs[i] < parent && Checked(s, cs[i])
    ensures EvalAll(s, row, parent, cs, isAnd, acc).Success?
    decreases parent, 0, |cs|
  {
    if cs != [] {
      CheckedNeverFails(s, row, cs[0]);
      var v := EvalCondition(s, row, cs[0]).value;
      AllCheckedNeverFail(s, row, parent, cs[1..], isAnd, if isAnd then acc && v else acc || v);
    }
  }

  /** NOT (x = NULL) accepts every row, although x = NULL is unknown. */
  lemma NotNullExample(s: Schema, row: Row, column: string)
    requires |row| == |s.cols| && IndexOf(s, column).Some?
    ensures EvalCondition(s, row, Compare(column, Eq, NullValue)) == Success(false)
    ensures EvalCondition(s, row, NotOf(Compare(column, Eq, NullValue))) == Success(true)
  {
    assert EvalCondition(s, row, Compare(column, Eq, NullValue)) == EvalCompare(s, row, column, Eq, NullValue);
  }

  // ---- key bounds ----

  /** A range of keys; no value means unbounded. */
  datatype KeyBounds = KeyBounds(lo: Option<int>, hi: Option<int>, loIncl: bool, hiIncl: bool)

  predicate AboveLow(b: KeyBounds, k: int) {
    b.lo == None || b.lo.value < k || (b.lo.value == k && b.loIncl)
  }

  predicate BelowHigh(b: KeyBounds, k: int) {
    b.hi == None || k < b.hi.value || (k == b.hi.value && b.hiIncl)
  }

  predicate InBounds(b: KeyBounds, k: int) {
    AboveLow(b, k) && BelowHigh(b, k)
  }

  function MergeBound(b: KeyBounds, isLow: bool, v: int, inclusive: bool): (r: KeyBounds)
    ensures forall k :: InBounds(r, k) <==>
              InBounds(b, k) && (if isLow then v < k || (v == k && inclusive) else k < v || (k == v && inclusive))
  {
    var cur := if isLow then b.lo else b.hi;
    var incl := if isLow then b.loIncl else b.hiIncl;
    var stricter := cur.Some? && (if isLow then v > cur.value else v < cur.value);
    var (cur', incl') :=
      if cur == None || stricter then (Some(v), inclusive)
      else if v == cur.value && !inclusive then (cur, false)
      else (cur, incl);
    if isLow then b.(lo := cur', loIncl := incl') else b.(hi := cur', hiIncl := incl')
  }

  /** What one comparison on the key column says about the key. */
  function CompareBound(s: Schema, b: KeyBounds, column: string, op: CompareOp, value: Value): KeyBounds {
    if s.cols == [] || column != s.cols[0].name || value == NullValue || op == Ne then b
    else match CoerceLiteral(s, value, s.cols[0])
      case Failure(_) => b
      case Success(lit) =>
        if !lit.IntValue? then b
        else match op
          case Eq => MergeBound(MergeBound(b, true, lit.i, true), false, lit.i, true)
          case Gt => MergeBound(b, true, lit.i, false)
          case Ge => MergeBound(b, true, lit.i, true)
          case Lt => MergeBound(b, false, lit.i, false)
          case Le => MergeBound(b, false, lit.i, true)
          case Ne => b
  }

  /** Along the AND tree only. */
  function ExtractKeyBounds(s: Schema, b: KeyBounds, c: Condition): KeyBounds
    decreases c, 0
  {
    match c
    case AndOf(cs) => ExtractAll(s, b, c, cs)
    case Compare(column, op, value) => CompareBound(s, b, column, op, value)
    case _ => b
  }

  function ExtractAll(s: Schema, b: KeyBounds, parent: Condition, cs: seq<Condition>): KeyBounds
    requires forall i :: 0 <= i < |cs| ==> cs[i] < parent
    decreases parent, 0, |cs|
  {
    if cs == [] then b else ExtractAll(s, ExtractKeyBounds(s, b, cs[0]), parent, cs[1..])
  }

  lemma CompareBoundSound(s: Schema, b: KeyBounds, row: Row, column: string, op: CompareOp, value: Value)
    requires RowOk(s, row) && InBounds(b, row[0].i) && EvalCompare(s, row, column, op, value) == Success(true)
    requires s.cols[0].kind != Text
    ensures InBounds(CompareBound(s, b, column, op, value), row[0].i)
  {
    if column == s.cols[0].name {
      assert IndexFrom(s.cols, column, 0) == Some(0);
    }
  }

  /** A row that satisfies the condition has its key inside the extracted bounds. */
  lemma {:induction false} BoundsSound(s: Schema, b: KeyBounds, row: Row, c: Condition)
    requires RowOk(s, row) && s.cols[0].kind != Text && InBounds(b, row[0].i)
    requires EvalCondition(s, row, c) == Success(true)
    ensures InBounds(ExtractKeyBounds(s, b, c), row[0].i)
    decreases c, 0
  {
    match c
    case AndOf(cs) => AllBoundsSound(s, b, row, c, cs, true);
    case Compare(column, op, value) => CompareBoundSound(s, b, row, column, op, value);
    case _ =>
  }

  lemma {:induction false} AllBoundsSound(s: Schema, b: KeyBounds, row: Row, parent: Condition, cs: seq<Condition>,
      acc: bool)
    requires RowOk(s, row) && s.cols[0].kind != Text && InBounds(b, row[0].i)
    requires forall i :: 0 <= i < |cs| ==> cs[i] < parent
    requires EvalAll(s, row, parent, cs, true, acc) == Success(true)
    ensures acc && InBounds(ExtractAll(s, b, parent, cs), row[0].i)
    decreases parent, 0, |cs|
  {
    AllTrue(s, row, parent, cs, acc);
    if cs != [] {
      var v := EvalCondition(s, row, cs[0]).value;
      AllTrue(s, row, parent, cs[1..], acc && v);
      BoundsSound(s, b, row, cs[0]);
      AllBoundsSound(s, ExtractKeyBounds(s, b, cs[0]), row, parent, cs[1..], acc && v);
    }
  }

  lemma {:induction false} AllTrue(s: Schema, row: Row, parent: Condition, cs: seq<Condition>, acc: bool)
    requires |row| == |s.cols| && forall i :: 0 <= i < |cs| ==> cs[i] < parent
    requires EvalAll(s, row, parent, cs, true, acc) == Success(true)
    ensures acc
    decreases |cs|
  {
    if cs != [] {
      AllTrue(s, row, parent, cs[1..], acc && EvalCondition(s, row, cs[0]).value);
    }
  }

  // ---- filtering and paging ----

  function Keep(rows: seq<Row>, p: Row -> bool): seq<Row> {
    if rows == [] then [] else (if p(rows[0]) then [rows[0]] else []) + Keep(rows[1..], p)
  }

  lemma {:induction false} KeepSplit(a: seq<Row>, b: seq<Row>, p: Row -> bool)
    ensures Keep(a + b, p) == Keep(a, p) + Keep(b, p)
  {
    if a == [] {
      assert a + b == b;
    } else {
      assert (a + b)[1..] == a[1..] + b;
      KeepSplit(a[1..], b, p);
    }
  }

  /** Filtering by a weaker predicate first makes no difference. */
  lemma {:induction false} KeepTwice(rows: seq<Row>, p: Row -> bool, q: Row -> bool)
    requires forall r :: r in rows && p(r) ==> q(r)
    ensures Keep(Keep(rows, q), p) == Keep(rows, p)
  {
    if rows != [] {
      KeepTwice(rows[1..], p, q);
      var rest := Keep(rows[1..], q);
      if q(rows[0]) {
        assert Keep(rows, q) == [rows[0]] + rest && Keep(rows, q)[1..] == rest;
      } else {
        assert rows[0] in rows && !p(rows[0]);
        assert Keep(rows, q) == rest;
      }
    }
  }

  lemma {:induction false} KeepOnly(rows: seq<Row>, p: Row -> bool)
    ensures forall r :: r in Keep(rows, p) ==> r in rows && p(r)
  {
    if rows != [] {
      KeepOnly(rows[1..], p);
    }
  }

  /** The table in key order. */
  ghost predicate TableOk(s: Schema, table: seq<Row>) {
    && s.cols != [] && s.cols[0].kind != Text
    && (forall i :: 0 <= i < |table| ==> RowOk(s, table[i]))
    && (forall i, j :: 0 <= i < j < |table| ==> KeyAt(table, i) < KeyAt(table, j))
  }

  function KeyAt(table: seq<Row>, i: nat): int
    requires i < |table|
  {
    if |table[i]| > 0 && table[i][0].IntValue? then table[i][0].i else 0
  }

  predicate KeyIn(b: KeyBounds, row: Row) {
    |row| > 0 && row[0].IntValue? && InBounds(b, row[0].i)
  }

  predicate Passes(s: Schema, filter: Option<Condition>, row: Row) {
    |row| == |s.cols| && (filter == None || EvalCondition(s, row, filter.value) == Success(true))
  }

  function BoundsOf(s: Schema, filter: Option<Condition>): KeyBounds {
    var all := KeyBounds(None, None, true, true);
    if filter == None then all else ExtractKeyBounds(s, all, filter.value)
  }

  function Passer(s: Schema, filter: Option<Condition>): Row -> bool {
    r => Passes(s, filter, r)
  }

  /** What a query without key bounds and without paging would return. */
  function Matches(s: Schema, table: seq<Row>, filter: Option<Condition>): seq<Row> {
    Keep(table, Passer(s, filter))
  }

  /** The rows a bounded scan of the whole range sees. */
  function Window(table: seq<Row>, b: KeyBounds): seq<Row> {
    Keep(table, r => KeyIn(b, r))
  }

  /** Pushing the key bounds down loses no row. */
  lemma PushdownExact(s: Schema, table: seq<Row>, filter: Option<Condition>)
    requires TableOk(s, table)
    ensures Matches(s, Window(table, BoundsOf(s, filter)), filter) == Matches(s, table, filter)
  {
    var b := BoundsOf(s, filter);
    forall r | r in table && Passes(s, filter, r) ensures KeyIn(b, r) {
      var i :| 0 <= i < |table| && table[i] == r;
      assert RowOk(s, table[i]);
      if filter.Some? {
        BoundsSound(s, KeyBounds(None, None, true, true), r, filter.value);
      }
    }
    KeepTwice(table, Passer(s, filter), r => KeyIn(b, r));
  }

  /** One page: the first `limit` rows of the range, and whether there are more. */
  function ScanLimited(table: seq<Row>, b: KeyBounds, limit: nat): (seq<Row>, bool) {
    var w := Window(table, b);
    if |w| > limit then (w[..limit], true) else (w, false)
  }

  lemma {:induction false} WindowFrom(s: Schema, table: seq<Row>, b: KeyBounds, k: int)
    requires TableOk(s, table)
    ensures forall i {:trigger Window(table, b)[i]} :: 0 <= i < |Window(table, b)| ==>
      RowOk(s, Window(table, b)[i]) && Window(table, b)[i] in table
  {
    var w := Window(table, b);
    KeepOnly(table, r => KeyIn(b, r));
    forall i | 0 <= i < |w| ensures RowOk(s, w[i]) && w[i] in table {
      assert w[i] in w;
    }
  }

  lemma TailOk(s: Schema, table: seq<Row>)
    requires TableOk(s, table) && table != []
    ensures TableOk(s, table[1..]) && RowOk(s, table[0]) && table == [table[0]] + table[1..]
    ensures forall r: Row :: r in table[1..] ==> RowOk(s, r) && table[0][0].i < r[0].i
  {
    var rest := table[1..];
    forall i | 0 <= i < |rest| ensures RowOk(s, rest[i]) && table[0][0].i < rest[i][0].i {
      assert rest[i] == table[i + 1] && RowOk(s, table[i + 1]) && RowOk(s, table[0]);
      assert KeyAt(table, 0) < KeyAt(table, i + 1);
    }
    forall i, j | 0 <= i < j < |rest| ensures KeyAt(rest, i) < KeyAt(rest, j) {
      assert KeyAt(table, i + 1) < KeyAt(table, j + 1);
    }
  }

  lemma WindowCons(table: seq<Row>, b: KeyBounds)
    requires table != []
    ensures Window(table, b) == (if KeyIn(b, table[0]) then [table[0]] else []) + Window(table[1..], b)
  {
  }

  /** Every key of the rest lies above the first one. */
  lemma WindowAbove(s: Schema, table: seq<Row>, b: KeyBounds, b': KeyBounds)
    requires TableOk(s, table) && table != [] && RowOk(s, table[0]) && KeyIn(b, table[0])
    requires b' == b.(lo := Some(table[0][0].i), loIncl := false)
    ensures Window(table[1..], b') == Window(table[1..], b)
  {
    TailOk(s, table);
    var rest := table[1..];
    forall r: Row | r in rest ensures KeyIn(b, r) <==> KeyIn(b', r) {
      assert RowOk(s, r) && table[0][0].i < r[0].i;
    }
    KeepSame(rest, r => KeyIn(b, r), r => KeyIn(b', r));
  }

  /** Going on behind the n-th row of a range, with an open lower bound at its key, sees the rest of it. */
  lemma {:induction false} WindowRest(s: Schema, table: seq<Row>, b: KeyBounds, n: nat)
    requires TableOk(s, table) && 0 < n <= |Window(table, b)|
    ensures RowOk(s, Window(table, b)[n - 1])
    ensures Window(table, b.(lo := Some(KeyAt(Window(table, b), n - 1)), loIncl := false)) == Window(table, b)[n..]
    decreases |table|
  {
    hide TableOk, Window, Keep;
    if table == [] {
      EmptyWindow(b);
    } else {
      TailOk(s, table);
      var w, rest := Window(table, b), table[1..];
      var b' := b.(lo := Some(KeyAt(w, n - 1)), loIncl := false);
      WindowFrom(s, rest, b, 0);
      WindowCons(table, b);
      WindowCons(table, b');
      if !KeyIn(b, table[0]) {
        assert w == Window(rest, b);
        WindowRest(s, rest, b, n);
      } else if n == 1 {
        WindowAbove(s, table, b, b');
      } else {
        assert w[n - 1] == Window(rest, b)[n - 2] && w[n..] == Window(rest, b)[n - 1..];
        WindowRest(s, rest, b, n - 1);
      }
    }
  }

  lemma EmptyWindow(b: KeyBounds)
    ensures Window([], b) == []
  {
  }

  lemma {:induction false} KeepSame(rows: seq<Row>, p: Row -> bool, q: Row -> bool)
    requires forall r :: r in rows ==> (p(r) <==> q(r))
    ensures Keep(rows, p) == Keep(rows, q)
  {
    if rows != [] {
      KeepSame(rows[1..], p, q);
    }
  }
}
