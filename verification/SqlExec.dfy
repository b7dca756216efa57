/** The executor's loops (src/sql/exec.cpp:296-491): narrowing the key bounds in place, reading the table
    page by page, and slicing a SELECT. */
module SqlExec {
  import opened Errors
  import opened SqlFilter
  import opened SqlMeaning
  import opened SqlSort
  import opened SqlSyntax

  const PAGE_ROWS: nat := 512

  class Bounds {
    var lo: Option<int>
    var hi: Option<int>
    var loIncl: bool
    var hiIncl: bool

    constructor ()
      ensures Val() == KeyBounds(None, None, true, true)
    {
      lo, hi, loIncl, hiIncl := None, None, true, true;
    }

    function Val(): KeyBounds
      reads this
    {
      KeyBounds(lo, hi, loIncl, hiIncl)
    }

    method MergeBound(isLow: bool, v: int, inclusive: bool)
      modifies this
      ensures Val() == SqlFilter.MergeBound(old(Val()), isLow, v, inclusive)
    {
      var cur := if isLow then lo else hi;
      if cur == None {
        if isLow { lo, loIncl := Some(v), inclusive; } else { hi, hiIncl := Some(v), inclusive; }
        return;
      }
      var cmp := CompareInts(v, cur.value);
      var stricter := if isLow then cmp > 0 else cmp < 0;
      if stricter {
        if isLow { lo, loIncl := Some(v), inclusive; } else { hi, hiIncl := Some(v), inclusive; }
      } else if cmp == 0 && !inclusive {
        if isLow { loIncl := false; } else { hiIncl := false; }
      }
    }

    method ExtractKeyBounds(s: Schema, c: Condition)
      modifies this
      ensures Val() == SqlFilter.ExtractKeyBounds(s, old(Val()), c)
      decreases c
    {
      if s.cols == [] {
        NoColumns(s, Val(), c);
        return;
      }
      if c.AndOf? {
        var cs := c.children;
        for i := 0 to |cs|
          invariant ExtractAll(s, Val(), c, cs[i..]) == SqlFilter.ExtractKeyBounds(s, old(Val()), c)
        {
          assert cs[i..][0] == cs[i] && cs[i..][1..] == cs[i + 1..];
          ExtractKeyBounds(s, cs[i]);
        }
        return;
      }
      if !c.Compare? || c.column != s.cols[0].name { return; }
      if c.value == NullValue || c.op == Ne { return; }
      var lit := CoerceLiteral(s, c.value, s.cols[0]);
      if lit.Failure? || !lit.value.IntValue? { return; }
      var v := lit.value.i;
      match c.op {
        case Eq =>
          MergeBound(true, v, true);
          MergeBound(false, v, true);
        case Gt => MergeBound(true, v, false);
        case Ge => MergeBound(true, v, true);
        case Lt => MergeBound(false, v, false);
        case Le => MergeBound(false, v, true);
        case Ne =>
      }
    }

    lemma {:induction false} NoColumns(s: Schema, b: KeyBounds, c: Condition)
      requires s.cols == []
      ensures SqlFilter.ExtractKeyBounds(s, b, c) == b
      decreases c, 1
    {
      if c.AndOf? { NoColumnsAll(s, b, c, c.children); }
    }

    lemma {:induction false} NoColumnsAll(s: Schema, b: KeyBounds, parent: Condition, cs: seq<Condition>)
      requires s.cols == [] && forall i :: 0 <= i < |cs| ==> cs[i] < parent
      ensures ExtractAll(s, b, parent, cs) == b
      decreases parent, 0, |cs|
    {
      if cs != [] {
        NoColumns(s, b, cs[0]);
        NoColumnsAll(s, b, parent, cs[1..]);
      }
    }
  }

  /** What a scan answers, given all matching rows: at most maxRows, or the first stopAfter. */
  function ScanAnswer(m: seq<Row>, maxRows: nat, stopAfter: nat): Result<seq<Row>> {
    if 0 < stopAfter <= |m| && stopAfter <= maxRows then Success(m[..stopAfter])
    else if |m| > maxRows then Failure(LimitExceeded)
    else Success(m)
  }

  predicate Misses(s: Schema, filter: Option<Condition>, row: Row)
    requires |row| == |s.cols|
  {
    filter.Some? && EvalCondition(s, row, filter.value).Failure?
  }

  /** How many rows come before the first that the condition cannot be evaluated on. */
  function Readable(s: Schema, filter: Option<Condition>, w: seq<Row>): (n: nat)
    requires AllWide(w, |s.cols|)
    ensures n <= |w| && (forall j :: 0 <= j < n ==> w[j] in w && !Misses(s, filter, w[j]))
    ensures n < |w| ==> w[n] in w && Misses(s, filter, w[n])
  {
    if w == [] || Misses(s, filter, w[0]) then 0 else
      assert forall x :: x in w[1..] ==> x in w;
      Readable(s, filter, w[1..]) + 1
  }

  /** The scan has its answer before it has seen every match. */
  predicate Decided(m: seq<Row>, maxRows: nat, stopAfter: nat) {
    |m| > maxRows || 0 < stopAfter <= |m|
  }

  /** What a scan of these rows answers: the matches up to the first row that the condition cannot be evaluated on may
      decide it; otherwise that row refuses it. */
  function ScanOf(s: Schema, w: seq<Row>, filter: Option<Condition>, maxRows: nat, stopAfter: nat): Result<seq<Row>>
    requires AllWide(w, |s.cols|)
  {
    var n := Readable(s, filter, w);
    var m := Keep(w[..n], Passer(s, filter));
    if n < |w| && !Decided(m, maxRows, stopAfter) then Failure(InvalidArgument) else ScanAnswer(m, maxRows, stopAfter)
  }

  /** One row of the scan loop. */
  datatype Verdict = GoOn | Stop | OverBudget

  function Judge(count: nat, maxRows: nat, stopAfter: nat): Verdict {
    if count >= maxRows then OverBudget
    else if stopAfter != 0 && count + 1 >= stopAfter then Stop
    else GoOn
  }

  /** What is decided at the match after `count` others decides the scan. */
  lemma JudgeDecides(m: seq<Row>, count: nat, maxRows: nat, stopAfter: nat)
    requires count < |m| && count <= maxRows && (stopAfter != 0 ==> count < stopAfter)
    ensures Judge(count, maxRows, stopAfter) == OverBudget ==>
      ScanAnswer(m, maxRows, stopAfter) == Failure(LimitExceeded)
    ensures Judge(count, maxRows, stopAfter) == Stop ==> ScanAnswer(m, maxRows, stopAfter) == Success(m[..count + 1])
  {
  }

  /** Filters one page into `before`, and ends the scan when the budget or the early stop says so. */
  method FilterPage(s: Schema, rows: seq<Row>, filter: Option<Condition>, before: seq<Row>, maxRows: nat,
                    stopAfter: nat, ghost w: seq<Row>, ghost done: nat)
    returns (ended: Option<Result<seq<Row>>>, out: seq<Row>)
    requires done + |rows| <= |w| && rows == w[done..done + |rows|] && before == Keep(w[..done], Passer(s, filter))
    requires (forall i :: 0 <= i < |w| ==> RowOk(s, w[i])) && AllWide(w, |s.cols|) && done <= Readable(s, filter, w)
    requires InBudget(before, maxRows, stopAfter) && AllWide(before, |s.cols|)
    ensures ended == None ==> out == Keep(w[..done + |rows|], Passer(s, filter)) && InBudget(out, maxRows, stopAfter)
    ensures ended == None ==> done + |rows| <= Readable(s, filter, w)
    ensures ended.Some? ==> ended.value == ScanOf(s, w, filter, maxRows, stopAfter)
    ensures ended.Some? && ended.value.Success? ==> AllWide(ended.value.value, |s.cols|)
    ensures AllWide(out, |s.cols|)
  {
    hide Keep, EvalCondition, ScanAnswer, RowOk, AllWide, Readable;
    ghost var p := Passer(s, filter);
    ghost var n := Readable(s, filter, w);
    out := before;
    for j := 0 to |rows|
      invariant out == Keep(w[..done + j], p) && InBudget(out, maxRows, stopAfter) && AllWide(out, |s.cols|)
      invariant done + j <= n
    {
      var row := rows[j];
      assert row == w[done + j] && RowOk(s, row);
      WideRow(s, row);
      assert Misses(s, filter, row) <==> done + j == n;
      if filter.Some? {
        var v := EvalCondition(s, row, filter.value);
        if v.Failure? {
          EvalMeans(s, row, filter.value);
          return Some(Failure(v.error)), out;
        }
        if !v.value {
          KeepSkips(w, p, done + j);
          continue;
        }
      }
      assert w[..n][..done + j] == w[..done + j] && w[..n][..done + j + 1] == w[..done + j + 1];
      KeepTakes(w[..n], p, done + j);
      JudgeDecides(Keep(w[..n], p), |out|, maxRows, stopAfter);
      if |out| >= maxRows { return Some(Failure(LimitExceeded)), out; }
      WideMore(out, row, |s.cols|);
      out := out + [row];
      if stopAfter != 0 && |out| >= stopAfter { return Some(Success(out)), out; }
    }
    ended := None;
  }

  lemma WideRow(s: Schema, row: Row)
    requires RowOk(s, row)
    ensures |row| == |s.cols|
  {
  }

  lemma WideMore(rows: seq<Row>, row: Row, width: nat)
    requires AllWide(rows, width) && |row| == width
    ensures AllWide(rows + [row], width)
  {
  }

  predicate InBudget(out: seq<Row>, maxRows: nat, stopAfter: nat) {
    |out| <= maxRows && (stopAfter != 0 ==> |out| < stopAfter)
  }

  predicate AllWide(rows: seq<Row>, width: nat) {
    forall x :: x in rows ==> |x| == width
  }

  /** Reads page after page behind the last key seen, filters, and keeps to the budget. The answer is that of one pass
      over the rows within the key bounds; for a condition that fits every row it is that of filtering the whole
      table in key order. */
  method ScanRows(s: Schema, table: seq<Row>, filter: Option<Condition>, maxRows: nat, stopAfter: nat)
    returns (r: Result<seq<Row>>)
    requires TableOk(s, table)
    ensures AllWide(Window(table, BoundsOf(s, filter)), |s.cols|)
    ensures r == ScanOf(s, Window(table, BoundsOf(s, filter)), filter, maxRows, stopAfter)
    ensures (filter.Some? ==> Checked(s, filter.value)) ==>
      r == ScanAnswer(Matches(s, table, filter), maxRows, stopAfter)
    ensures r.Success? ==> AllWide(r.value, |s.cols|)
  {
    hide Keep, TableOk, EvalCondition, Checked, AllWide, Passer, Window, Readable, ScanAnswer, RowOk;
    var bounds := new Bounds();
    if filter.Some? { bounds.ExtractKeyBounds(s, filter.value); }
    var base := bounds.Val();
    ghost var w := Window(table, base);
    ghost var p := Passer(s, filter);
    RowsFit(s, table, base);
    KeepNone(p, |s.cols|);
    CheckedScan(s, table, filter, maxRows, stopAfter);
    var done: nat := 0;
    var out: seq<Row> := [];
    var cursor := base.lo;
    var firstPage := true;
    assert w[..0] == [] && w[0..] == w && base.(lo := cursor) == base;
    while true
      invariant done <= Readable(s, filter, w)
      invariant done <= |w| && out == Keep(w[..done], p) && InBudget(out, maxRows, stopAfter) && AllWide(out, |s.cols|)
      invariant Window(table, base.(lo := cursor, loIncl := firstPage && base.loIncl)) == w[done..]
      decreases |w| - done
    {
      var page := base.(lo := cursor, loIncl := if firstPage then base.loIncl else false);
      assert page == base.(lo := cursor, loIncl := firstPage && base.loIncl);
      var (rows, more) := ScanLimited(table, page, PAGE_ROWS);
      assert rows == w[done..done + |rows|];
      if |rows| == 0 {
        assert w[..done] == w;
        break;
      }
      var lastKey := KeyAt(rows, |rows| - 1);
      var ended;
      ended, out := FilterPage(s, rows, filter, out, maxRows, stopAfter, w, done);
      if ended.Some? { return ended.value; }
      done := done + |rows|;
      WindowRest(s, table, base, done);
      assert KeyAt(w, done - 1) == lastKey;
      cursor := Some(lastKey);
      firstPage := false;
      if !more {
        assert w[..done] == w;
        break;
      }
    }
    WholeScan(s, w, filter, maxRows, stopAfter);
    return Success(out);
  }

  /** A scan that comes to the end of its rows answers what it has kept. */
  lemma WholeScan(s: Schema, w: seq<Row>, filter: Option<Condition>, maxRows: nat, stopAfter: nat)
    requires AllWide(w, |s.cols|)
    requires Readable(s, filter, w) == |w| && InBudget(Keep(w, Passer(s, filter)), maxRows, stopAfter)
    ensures ScanOf(s, w, filter, maxRows, stopAfter) == Success(Keep(w, Passer(s, filter)))
  {
    assert w[..|w|] == w;
  }

  /** A condition that has been checked can be evaluated on every row, and the rows within its bounds have all that
      match. */
  lemma CheckedScan(s: Schema, table: seq<Row>, filter: Option<Condition>, maxRows: nat, stopAfter: nat)
    requires TableOk(s, table) && AllWide(Window(table, BoundsOf(s, filter)), |s.cols|)
    ensures (filter.Some? ==> Checked(s, filter.value)) ==>
      ScanOf(s, Window(table, BoundsOf(s, filter)), filter, maxRows, stopAfter)
      == ScanAnswer(Matches(s, table, filter), maxRows, stopAfter)
  {
    hide Keep, TableOk, EvalCondition, Checked, Window, ScanAnswer;
    if filter.Some? ==> Checked(s, filter.value) {
      var w := Window(table, BoundsOf(s, filter));
      var n := Readable(s, filter, w);
      if n < |w| { RefuseChecked(s, w[n], filter.value); }
      assert w[..|w|] == w;
      PushdownExact(s, table, filter);
    }
  }

  lemma KeepNone(p: Row -> bool, width: nat)
    ensures Keep([], p) == [] && AllWide([], width)
  {
  }

  lemma RowsFit(s: Schema, table: seq<Row>, b: KeyBounds)
    requires TableOk(s, table)
    ensures forall i :: 0 <= i < |Window(table, b)| ==> RowOk(s, Window(table, b)[i])
    ensures AllWide(Window(table, b), |s.cols|)
  {
    WindowFrom(s, table, b, 0);
    forall x | x in Window(table, b) ensures |x| == |s.cols| {
      var i :| 0 <= i < |Window(table, b)| && Window(table, b)[i] == x;
      assert RowOk(s, Window(table, b)[i]);
    }
  }

  lemma RefuseChecked(s: Schema, row: Row, c: Condition)
    requires |row| == |s.cols| && EvalCondition(s, row, c).Failure?
    ensures !Checked(s, c)
  {
    if Checked(s, c) {
      CheckedNeverFails(s, row, c);
    }
  }

  lemma KeepSkips(w: seq<Row>, p: Row -> bool, i: nat)
    requires i < |w| && !p(w[i])
    ensures Keep(w[..i + 1], p) == Keep(w[..i], p)
  {
    assert w[..i + 1] == w[..i] + [w[i]];
    KeepSplit(w[..i], [w[i]], p);
  }

  /** The next row that passes is the next one kept. */
  lemma KeepTakes(w: seq<Row>, p: Row -> bool, i: nat)
    requires i < |w| && p(w[i])
    ensures Keep(w[..i + 1], p) == Keep(w[..i], p) + [w[i]]
    ensures |Keep(w[..i], p)| < |Keep(w, p)|
    ensures Keep(w, p)[..|Keep(w[..i], p)| + 1] == Keep(w[..i], p) + [w[i]]
  {
    assert w[..i + 1] == w[..i] + [w[i]];
    KeepSplit(w[..i], [w[i]], p);
    assert w == w[..i + 1] + w[i + 1..];
    KeepSplit(w[..i + 1], w[i + 1..], p);
  }

  // ---- SELECT ----

  function Slice<T>(rows: seq<T>, limit: int, offset: int): seq<T> {
    var off := if offset < 0 then 0 else offset;
    var begin := if off < |rows| then off else |rows|;
    var end := if 0 <= limit < |rows| - begin then begin + limit else |rows|;
    rows[begin..end]
  }

  /** At most `limit` rows, if that is no negative number, behind the first `offset` ones. */
  lemma SliceMeans<T>(rows: seq<T>, limit: int, offset: nat)
    ensures var out := Slice(rows, limit, offset);
      && |out| <= |rows| && (limit >= 0 ==> |out| <= limit)
      && (forall i :: 0 <= i < |out| ==> offset + i < |rows| && out[i] == rows[offset + i])
      && (offset + |out| < |rows| ==> limit == |out|)
    ensures forall n: int :: n < 0 ==> Slice(rows, limit, n) == Slice(rows, limit, 0)
  {
  }

  /** Where a SELECT without WHERE and ORDER BY may stop reading; 0 is nowhere. */
  function StopAfter(plain: bool, limit: int, offset: int, maxRows: nat): nat {
    if !plain || limit < 0 then 0 else
      var off := if offset < 0 then 0 else offset;
      if limit < maxRows && off < maxRows - limit then limit + off else maxRows
  }

  /** Exactly when the early stop gives what slicing all rows would give. */
  lemma EarlyStopExact(m: seq<Row>, limit: nat, offset: nat, maxRows: nat)
    requires maxRows > 0
    ensures var scan := ScanAnswer(m, maxRows, StopAfter(true, limit, offset, maxRows));
      (scan.Success? && Slice(scan.value, limit, offset) == Slice(m, limit, offset))
      <==> (|m| <= maxRows || 0 < limit + offset <= maxRows
            || (limit == 0 && offset > 0) || (limit > 0 && offset >= |m|))
  {
    var stop := StopAfter(true, limit, offset, maxRows);
    var scan := ScanAnswer(m, maxRows, stop);
    if scan.Success? {
      var a, b := Slice(scan.value, limit, offset), Slice(m, limit, offset);
      assert |a| == |b| ==> a == b by {
        if |a| == |b| && |a| > 0 {
          assert scan.value <= m;
        }
      }
    }
  }

  /** A limit that fits the budget is answered exactly, whatever the table's size. */
  lemma LimitWithinBudget(m: seq<Row>, limit: nat, offset: nat, maxRows: nat)
    requires 0 < limit + offset < maxRows
    ensures var scan := ScanAnswer(m, maxRows, StopAfter(true, limit, offset, maxRows));
      scan.Success? && Slice(scan.value, limit, offset) == Slice(m, limit, offset)
  {
    EarlyStopExact(m, limit, offset, maxRows);
  }

  /** LIMIT 5 OFFSET 8 over 20 rows with a budget of 10 answers two rows instead of five. */
  lemma EarlyStopCutsExample(m: seq<Row>)
    requires |m| == 20
    ensures var scan := ScanAnswer(m, 10, StopAfter(true, 5, 8, 10));
      && scan.Success? && Slice(scan.value, 5, 8) == m[8..10] && Slice(m, 5, 8) == m[8..13]
  {
    assert m[..10][8..10] == m[8..10];
  }

  /** LIMIT 0 OFFSET 0 asks for nothing, and fails on a table over the budget. */
  lemma LimitZeroExample(m: seq<Row>, maxRows: nat)
    requires 0 < maxRows < |m|
    ensures ScanAnswer(m, maxRows, StopAfter(true, 0, 0, maxRows)) == Failure(LimitExceeded) && Slice(m, 0, 0) == []
  {
    assert StopAfter(true, 0, 0, maxRows) == 0;
  }

  function Project(row: Row, columns: seq<nat>): Row
    requires forall i :: 0 <= i < |columns| ==> columns[i] < |row|
  {
    seq(|columns|, i requires 0 <= i < |columns| => row[columns[i]])
  }

  predicate Resolved(s: Schema, names: Option<seq<string>>, columns: seq<nat>) {
    match names
    case None => columns == seq(|s.cols|, i => i)
    case Some(ns) => |columns| == |ns| && forall i :: 0 <= i < |ns| ==> IndexOf(s, ns[i]) == Some(columns[i])
  }

  /** The columns a SELECT names, or all of them. */
  method ResolveColumns(s: Schema, names: Option<seq<string>>) returns (r: Result<seq<nat>>)
    ensures r.Success? ==> Resolved(s, names, r.value) && forall i :: 0 <= i < |r.value| ==> r.value[i] < |s.cols|
    ensures r.Failure? ==> r.error == InvalidArgument && UnknownName(s, names)
  {
    if names == None { return Success(seq(|s.cols|, i => i)); }
    var columns: seq<nat> := [];
    for i := 0 to |names.value|
      invariant |columns| == i
      invariant forall j :: 0 <= j < i ==> IndexOf(s, names.value[j]) == Some(columns[j]) && columns[j] < |s.cols|
    {
      var idx := IndexOf(s, names.value[i]);
      if idx == None { return Failure(InvalidArgument); }
      columns := columns + [idx.value];
    }
    return Success(columns);
  }

  /** The rows of the result: the slice, each cut down to the named columns. */
  method SliceProject(rows: seq<Row>, columns: seq<nat>, width: nat, limit: int, offset: int) returns (out: seq<Row>)
    requires (forall x :: x in rows ==> |x| == width) && forall j :: 0 <= j < |columns| ==> columns[j] < width
    ensures Projected(out, Slice(rows, limit, offset), columns, width)
  {
    var off := if offset < 0 then 0 else offset;
    var begin := if off < |rows| then off else |rows|;
    var end := |rows|;
    if limit >= 0 && limit < end - begin { end := begin + limit; }
    ghost var chosen := rows[begin..end];
    out := [];
    for i := begin to end
      invariant |out| == i - begin
      invariant forall j :: 0 <= j < |out| ==> |chosen[j]| == width && out[j] == Project(chosen[j], columns)
    {
      assert rows[i] in rows && chosen[i - begin] == rows[i];
      out := out + [Project(rows[i], columns)];
    }
  }

  predicate Projected(out: seq<Row>, chosen: seq<Row>, columns: seq<nat>, width: nat) {
    && |out| == |chosen| && (forall j :: 0 <= j < |columns| ==> columns[j] < width)
    && forall i :: 0 <= i < |chosen| ==> |chosen[i]| == width && out[i] == Project(chosen[i], columns)
  }

  datatype OrderBy = OrderBy(column: string, descending: bool)

  predicate ResolvedKeys(s: Schema, orderBy: seq<OrderBy>, keys: seq<SortKey>) {
    && |keys| == |orderBy|
    && forall i :: 0 <= i < |orderBy| ==>
         IndexOf(s, orderBy[i].column) == Some(keys[i].col) && keys[i].descending == orderBy[i].descending
  }

  /** The columns of ORDER BY; they need not be among the ones that are shown. */
  method ResolveKeys(s: Schema, orderBy: seq<OrderBy>) returns (r: Result<seq<SortKey>>)
    ensures r.Success? ==> ResolvedKeys(s, orderBy, r.value)
    ensures r.Failure? ==> r.error == InvalidArgument && UnknownKey(s, orderBy)
  {
    var keys: seq<SortKey> := [];
    for i := 0 to |orderBy|
      invariant ResolvedKeys(s, orderBy[..i], keys)
    {
      var idx := IndexOf(s, orderBy[i].column);
      if idx == None { return Failure(InvalidArgument); }
      keys := keys + [SortKey(idx.value, orderBy[i].descending)];
    }
    assert orderBy[..|orderBy|] == orderBy;
    return Success(keys);
  }

  predicate UnknownKey(s: Schema, orderBy: seq<OrderBy>) {
    exists i :: 0 <= i < |orderBy| && IndexOf(s, orderBy[i].column) == None
  }

  /** What SELECT reads for its answer. */
  function SelectScan(s: Schema, table: seq<Row>, filter: Option<Condition>, plain: bool, limit: int, offset: int,
                      maxRows: nat): Result<seq<Row>>
    requires AllWide(Window(table, BoundsOf(s, filter)), |s.cols|)
  {
    ScanOf(s, Window(table, BoundsOf(s, filter)), filter, maxRows, StopAfter(plain, limit, offset, maxRows))
  }

  /** SELECT: scan, sort, slice, project. The stable sort is the one SqlSort.StableSortUnique singles out. */
  method ExecSelect(s: Schema, table: seq<Row>, filter: Option<Condition>, orderBy: seq<OrderBy>,
                    names: Option<seq<string>>, limit: int, offset: int, maxRows: nat)
    returns (r: Result<seq<Row>>, columns: seq<nat>, keys: seq<SortKey>)
    requires TableOk(s, table)
    ensures r.Success? ==> ResolvedKeys(s, orderBy, keys) && Resolved(s, names, columns)
    ensures AllWide(Window(table, BoundsOf(s, filter)), |s.cols|)
    ensures (filter.Some? ==> Checked(s, filter.value)) ==>
      SelectScan(s, table, filter, filter == None && orderBy == [], limit, offset, maxRows)
      == ScanAnswer(Matches(s, table, filter), maxRows,
        StopAfter(filter == None && orderBy == [], limit, offset, maxRows))
    ensures (
      var scan := SelectScan(s, table, filter, filter == None && orderBy == [], limit, offset, maxRows);
      if scan.Failure? then r == Failure(scan.error)
      else if r.Failure? then r.error == InvalidArgument && (UnknownKey(s, orderBy) || UnknownName(s, names))
      else Projected(r.value, Slice(SortRows(keys, scan.value), limit, offset), columns, |s.cols|))
  {
    hide Matches, ScanAnswer, ScanOf, TableOk, Checked, Slice, Projected, SortRows, ResolvedKeys, Resolved;
    columns, keys := [], [];
    var plain := filter == None && orderBy == [];
    var stopAfter := 0;
    if plain && limit >= 0 {
      var off := if offset < 0 then 0 else offset;
      stopAfter := if limit < maxRows && off < maxRows - limit then limit + off else maxRows;
    }
    assert stopAfter == StopAfter(plain, limit, offset, maxRows);
    var scan := ScanRows(s, table, filter, maxRows, stopAfter);
    if scan.Failure? { return scan, columns, keys; }
    var order := ResolveKeys(s, orderBy);
    if order.Failure? { return Failure(order.error), columns, keys; }
    keys := order.value;
    var rows := SortRows(keys, scan.value);
    SortMembers(keys, scan.value);
    var cols := ResolveColumns(s, names);
    if cols.Failure? { return Failure(cols.error), columns, keys; }
    columns := cols.value;
    var out := SliceProject(rows, cols.value, |s.cols|, limit, offset);
    return Success(out), columns, keys;
  }

  predicate UnknownName(s: Schema, names: Option<seq<string>>) {
    names.Some? && exists i :: 0 <= i < |names.value| && IndexOf(s, names.value[i]) == None
  }
}
