/** The row store over slots that change in place (src/storage/table_store.cpp). The primary index is the
    map its B+ tree refines, and each secondary index likewise; whether the page allocator behind a tree
    refuses an insertion is a parameter. */
module TableStore {
  import opened BatchHistory
  import opened BatchRows
  import opened Errors
  import opened LittleEndian
  import opened OrderedKey
  import opened Recovery
  import opened RowBatch
  import opened RowImage
  import opened SecIndex

  /** A row as the table takes it: all columns, an integer key in front, NULL only where allowed. */
  predicate RowOk(row: Row, nullable: seq<bool>) {
    && |row| == |nullable| && |row| > 0 && row[0].Int?
    && forall i :: 0 <= i < |row| ==> row[i].Null? ==> nullable[i]
  }

  predicate Live(im: Image, r: nat)
    requires r < |im.rec|
  {
    |im.rec[r]| > 0 && im.rec[r][0].Int? && im.rec[r][0].v in im.index && im.index[im.rec[r][0].v] == r
  }

  /** The values of one column in the live rows, by slot. */
  ghost function Column(im: Image, col: nat): map<nat, Cell> {
    map r: nat | r < |im.rec| && Live(im, r) :: CellAt(im.rec[r], col)
  }

  /** The table as its readers see it. */
  ghost function RowsByKey(im: Image): map<int, Row> {
    map k | k in im.index && im.index[k] < |im.rec| :: im.rec[im.index[k]]
  }

  predicate Answers(st: Staged, req: Request) {
    Answered(st.op, req)
  }

  predicate Answered(op: Op, req: Request) {
    op.kind == req.kind && |req.row| > 0 && req.row[0] == Int(op.key) && (req.kind != Delete ==> op.rec == req.row)
  }

  /** The requests' operations are a history from im, and all newer than what their slots had. */
  ghost predicate IsBatch(im: Image, ops: seq<Op>, reqs: seq<Request>) {
    && Steady(im) && |ops| == |reqs| && AllFit(im, ops) && History(im, ops)
    && forall i :: 0 <= i < |reqs| ==>
         Answered(ops[i], reqs[i]) && ops[i].slot < |im.ver| && ops[i].ver == im.ver[ops[i].slot] + 2
  }

  /** A batch has been applied that recovery's histories admit, behind any other. */
  ghost predicate BatchRun(im: Image, im': Image, reqs: seq<Request>) {
    exists ops: seq<Op> :: IsBatch(im, ops, reqs) && im' == Run(im, ops)
  }

  /** Whatever the store has done before, the batch continues the history. */
  lemma BatchContinues(im: Image, g: seq<Op>, ops: seq<Op>, reqs: seq<Request>)
    requires Steady(im) && History(im, g) && AllFit(im, g) && IsBatch(Run(im, g), ops, reqs)
    ensures History(im, g + ops) && AllFit(im, g + ops) && Run(im, g + ops) == Run(Run(im, g), ops)
  {
    HistoryJoin(im, g, ops);
    HistorySplit(im, g, ops);
  }

  lemma RowsStep(im: Image, rowCount: nat, reserved: set<nat>, st: Staged)
    requires RowsOk(im, rowCount, reserved) && StagedOk(im, rowCount, reserved, st)
    ensures RowsByKey(Applied(im, st.op)) == StepRows(RowsByKey(im), st.op)
  {
    var t := Applied(im, st.op);
    forall k | k in im.index ensures im.index[k] < |im.rec| && (im.index[k] == st.op.slot ==> k == st.op.key) {
      assert EntryOk(im, rowCount, reserved, k);
      if st.op.key in im.index { assert EntryOk(im, rowCount, reserved, st.op.key); }
    }
    var a, b := RowsByKey(t), StepRows(RowsByKey(im), st.op);
    assert a.Keys == b.Keys;
    assert forall k :: k in a ==> a[k] == b[k];
  }

  /** Blanking a reserved slot changes no row. */
  lemma RowsBlank(im: Image, rowCount: nat, reserved: set<nat>, s: nat)
    requires RowsOk(im, rowCount, reserved) && s in reserved && s < |im.ver|
    ensures RowsByKey(Blanked(im, s)) == RowsByKey(im)
    ensures forall col :: Column(Blanked(im, s), col) == Column(im, col)
  {
    forall k | k in im.index ensures im.index[k] != s {
      assert EntryOk(im, rowCount, reserved, k);
    }
    var a, b := RowsByKey(Blanked(im, s)), RowsByKey(im);
    assert a.Keys == b.Keys;
    assert forall k :: k in a ==> a[k] == b[k];
  }

  lemma RowsRelease(im: Image, st: Staged)
    requires st.op.slot < |im.tomb|
    ensures RowsByKey(ReleasedTomb(im, st)) == RowsByKey(im)
    ensures forall col :: Column(ReleasedTomb(im, st), col) == Column(im, col)
  {
  }

  lemma ColumnInsert(im: Image, rowCount: nat, reserved: set<nat>, st: Staged, col: nat)
    requires RowsOk(im, rowCount, reserved) && StagedOk(im, rowCount, reserved, st)
    requires Reserves(st) && st.op.key !in im.index
    ensures st.op.slot !in Column(im, col)
    ensures Column(Applied(im, st.op), col) == Column(im, col)[st.op.slot := CellAt(st.op.rec, col)]
  {
    var t, s := Applied(im, st.op), st.op.slot;
    forall k | k in im.index ensures EntryOk(im, rowCount, reserved, k) {
    }
    assert Live(t, s);
    forall r: nat | r < |im.rec| && r != s ensures Live(t, r) <==> Live(im, r) {
      if Live(t, r) { assert t.rec[r][0].v != st.op.key; }
    }
  }

  lemma ColumnUpdate(im: Image, rowCount: nat, reserved: set<nat>, st: Staged, col: nat)
    requires RowsOk(im, rowCount, reserved) && StagedOk(im, rowCount, reserved, st)
    requires st.op.kind == Update && st.op.key in im.index
    ensures st.op.slot in Column(im, col) && Column(im, col)[st.op.slot] == CellAt(im.rec[st.op.slot], col)
    ensures Column(Applied(im, st.op), col) == Column(im, col)[st.op.slot := CellAt(st.op.rec, col)]
  {
    assert EntryOk(im, rowCount, reserved, st.op.key);
    assert Live(im, st.op.slot) && Live(Applied(im, st.op), st.op.slot);
  }

  lemma ColumnDelete(im: Image, rowCount: nat, reserved: set<nat>, st: Staged, col: nat)
    requires RowsOk(im, rowCount, reserved) && StagedOk(im, rowCount, reserved, st)
    requires st.op.kind == Delete && st.op.key in im.index
    ensures st.op.slot in Column(im, col) && Column(im, col)[st.op.slot] == CellAt(im.rec[st.op.slot], col)
    ensures Column(Applied(im, st.op), col) == Column(im, col) - {st.op.slot}
  {
    assert EntryOk(im, rowCount, reserved, st.op.key);
    assert Live(im, st.op.slot);
  }

  // ---- rows that only the secondary indexes see ----

  /** Slots that a batch updated after deleting them. */
  ghost function StrayCells(im: Image, stray: set<nat>, col: nat): map<nat, Cell> {
    map r | r in stray && r < |im.rec| :: CellAt(im.rec[r], col)
  }

  /** What the secondary indexes are made of. */
  ghost function Shown(im: Image, stray: set<nat>, col: nat): map<nat, Cell> {
    Column(im, col) + StrayCells(im, stray, col)
  }

  ghost predicate StrayOk(im: Image, reserved: set<nat>, stray: set<nat>) {
    forall r :: r in stray ==> r < |im.rec| && r !in reserved && !Live(im, r)
  }

  lemma ShownNone(im: Image, col: nat)
    ensures Shown(im, {}, col) == Column(im, col)
  {
    assert StrayCells(im, {}, col) == map[];
  }

  lemma ShownInsert(im: Image, rowCount: nat, reserved: set<nat>, st: Staged, stray: set<nat>, col: nat)
    requires RowsOk(im, rowCount, reserved) && StagedOk(im, rowCount, reserved, st) && StrayOk(im, reserved, stray)
    requires Reserves(st) && st.op.key !in im.index
    ensures st.op.slot !in Shown(im, stray, col)
    ensures Shown(Applied(im, st.op), stray, col) == Shown(im, stray, col)[st.op.slot := CellAt(st.op.rec, col)]
  {
    hide RowsOk, Live, CellAt, Column;
    ColumnInsert(im, rowCount, reserved, st, col);
    assert StrayCells(Applied(im, st.op), stray, col) == StrayCells(im, stray, col);
  }

  lemma ShownUpdate(im: Image, rowCount: nat, reserved: set<nat>, st: Staged, stray: set<nat>, col: nat)
    requires RowsOk(im, rowCount, reserved) && StagedOk(im, rowCount, reserved, st) && StrayOk(im, reserved, stray)
    requires st.op.kind == Update && st.op.key in im.index
    ensures st.op.slot in Shown(im, stray, col) && Shown(im, stray, col)[st.op.slot] == CellAt(im.rec[st.op.slot], col)
    ensures Shown(Applied(im, st.op), stray, col) == Shown(im, stray, col)[st.op.slot := CellAt(st.op.rec, col)]
  {
    ColumnUpdate(im, rowCount, reserved, st, col);
    assert Live(im, st.op.slot);
    assert StrayCells(Applied(im, st.op), stray, col) == StrayCells(im, stray, col);
  }

  lemma ShownStray(im: Image, rowCount: nat, reserved: set<nat>, st: Staged, stray: set<nat>, col: nat)
    requires RowsOk(im, rowCount, reserved) && StagedOk(im, rowCount, reserved, st) && StrayOk(im, reserved, stray)
    requires st.op.kind == Update && st.op.key !in im.index
    ensures st.op.slot in Shown(im, stray, col) <==> st.op.slot in stray
    ensures st.op.slot in stray ==> Shown(im, stray, col)[st.op.slot] == CellAt(im.rec[st.op.slot], col)
    ensures Shown(Applied(im, st.op), stray + {st.op.slot}, col)
         == Shown(im, stray, col)[st.op.slot := CellAt(st.op.rec, col)]
  {
    hide RowsOk, Live, CellAt;
    DeadSlot(im, rowCount, reserved, st);
    ColumnStray(im, rowCount, reserved, st, col);
    StrayApart(im, st.op.slot, stray, reserved, col);
    assert StrayCells(Applied(im, st.op), stray + {st.op.slot}, col)
        == StrayCells(im, stray, col)[st.op.slot := CellAt(st.op.rec, col)];
  }

  lemma ColumnStray(im: Image, rowCount: nat, reserved: set<nat>, st: Staged, col: nat)
    requires RowsOk(im, rowCount, reserved) && StagedOk(im, rowCount, reserved, st)
    requires st.op.kind == Update && st.op.key !in im.index
    ensures Column(Applied(im, st.op), col) == Column(im, col)
  {
    hide RowsOk, CellAt, Live;
    DeadSlot(im, rowCount, reserved, st);
  }

  lemma StrayApart(im: Image, s: nat, stray: set<nat>, reserved: set<nat>, col: nat)
    requires StrayOk(im, reserved, stray) && s < |im.rec| && !Live(im, s)
    ensures s !in Column(im, col) && (s in StrayCells(im, stray, col) <==> s in stray)
    ensures s in stray ==> Shown(im, stray, col)[s] == CellAt(im.rec[s], col)
  {
  }

  /** An update of a key that the index no longer has works on a dead slot, before and after. */
  lemma DeadSlot(im: Image, rowCount: nat, reserved: set<nat>, st: Staged)
    requires RowsOk(im, rowCount, reserved) && StagedOk(im, rowCount, reserved, st)
    requires st.op.kind == Update && st.op.key !in im.index
    ensures !Live(im, st.op.slot) && !Live(Applied(im, st.op), st.op.slot)
    ensures forall r: nat :: r < |im.rec| && r != st.op.slot ==> (Live(Applied(im, st.op), r) <==> Live(im, r))
  {
    var s := st.op.slot;
    assert im.tomb[s];
    if |im.rec[s]| > 0 && im.rec[s][0].Int? && im.rec[s][0].v in im.index {
      assert EntryOk(im, rowCount, reserved, im.rec[s][0].v);
    }
  }

  lemma ShownDelete(im: Image, rowCount: nat, reserved: set<nat>, st: Staged, stray: set<nat>, col: nat)
    requires RowsOk(im, rowCount, reserved) && StagedOk(im, rowCount, reserved, st) && StrayOk(im, reserved, stray)
    requires st.op.kind == Delete && st.op.key in im.index
    ensures st.op.slot in Shown(im, stray, col) && Shown(im, stray, col)[st.op.slot] == CellAt(im.rec[st.op.slot], col)
    ensures Shown(Applied(im, st.op), stray, col) == Shown(im, stray, col) - {st.op.slot}
  {
    ColumnDelete(im, rowCount, reserved, st, col);
    assert Live(im, st.op.slot) by { assert EntryOk(im, rowCount, reserved, st.op.key); }
    assert StrayCells(Applied(im, st.op), stray, col) == StrayCells(im, stray, col);
  }

  /** The stray slots are those of the stray requests among the first n, each with the row its request brought. */
  ghost predicate StrayRows(rec: seq<Row>, staged: seq<Staged>, reqs: seq<Request>, n: nat, stray: set<nat>)
    requires n <= |reqs| == |staged|
  {
    && (forall i :: 0 <= i < n && Stray(reqs, n, i) ==>
          staged[i].op.slot in stray && staged[i].op.slot < |rec| && rec[staged[i].op.slot] == reqs[i].row)
    && (forall r :: r in stray ==> exists i :: 0 <= i < n && Stray(reqs, n, i) && staged[i].op.slot == r)
  }

  ghost predicate AllAnswer(staged: seq<Staged>, reqs: seq<Request>) {
    |staged| == |reqs| && forall i :: 0 <= i < |reqs| ==> Answers(staged[i], reqs[i])
  }

  lemma LedBatch(im: Image, im': Image, staged: seq<Staged>, reqs: seq<Request>)
    requires Led(im, im', staged, |staged|) && AllAnswer(staged, reqs)
    ensures BatchRun(im, im', reqs)
  {
    var ops := Ops(staged);
    assert staged[..|staged|] == staged;
    forall i | 0 <= i < |reqs|
      ensures Answered(ops[i], reqs[i]) && ops[i].slot < |im.ver| && ops[i].ver == im.ver[ops[i].slot] + 2
    {
      assert Answers(staged[i], reqs[i]) && Versioned(im, staged[i]);
    }
    assert IsBatch(im, ops, reqs);
  }

  lemma ConsistentFromIndex(im: Image, rowCount: nat, reserved: set<nat>, staged: seq<Staged>, reqs: seq<Request>)
    requires RowsOk(im, rowCount, reserved) && AllFresh(im, staged) && AllAnswer(staged, reqs)
    ensures Consistent(RowsByKey(im), reqs)
  {
    forall i | 0 <= i < |reqs| ensures reqs[i].kind == Insert <==> KeyOf(reqs[i].row) !in RowsByKey(im) {
      assert Answers(staged[i], reqs[i]);
      KeyInTable(im, rowCount, reserved, staged[i].op.key);
    }
  }

  lemma KeyInTable(im: Image, rowCount: nat, reserved: set<nat>, k: int)
    requires RowsOk(im, rowCount, reserved)
    ensures k in im.index <==> k in RowsByKey(im)
    ensures k in im.index ==> im.index[k] < |im.rec| && Live(im, im.index[k]) && RowsByKey(im)[k] == im.rec[im.index[k]]
  {
    if k in im.index { assert EntryOk(im, rowCount, reserved, k); }
  }

  /** Whether a request meets its key is what the requests before it say. */
  lemma Meets(t: map<int, Row>, im: Image, rowCount: nat, reserved: set<nat>, reqs: seq<Request>, n: nat)
    requires Consistent(t, reqs) && n < |reqs| && RowsOk(im, rowCount, reserved)
    requires RowsByKey(im) == StepAll(t, reqs[..n]) && reqs[n].kind != Insert
    ensures KeyOf(reqs[n].row) in im.index <==> !Deleted(reqs, n, KeyOf(reqs[n].row))
  {
    hide StepAll;
    KeyInTable(im, rowCount, reserved, KeyOf(reqs[n].row));
    PresentAfter(t, reqs, n, KeyOf(reqs[n].row));
  }

  lemma StrayAdvance(im: Image, st: Staged, staged: seq<Staged>, reqs: seq<Request>, n: nat, stray: set<nat>)
    requires n < |reqs| && AllAnswer(staged, reqs) && SlotsByKey(staged) && st == staged[n] && Fits(im, st.op)
    requires StrayRows(im.rec, staged, reqs, n, stray)
    requires st.op.kind != Insert ==> (st.op.key in im.index <==> !Deleted(reqs, n, KeyOf(reqs[n].row)))
    requires st.op.kind == Delete ==> st.op.key in im.index
    requires (st.op.kind == Update && st.op.key !in im.index) || st.op.slot !in stray
    requires st.op.kind == Insert ==> forall j :: 0 <= j < n && !Reserves(staged[j]) ==> staged[j].op.key != st.op.key
    ensures StrayRows(Applied(im, st.op).rec, staged, reqs, n + 1, StrayNow(im, st, stray))
  {
    hide Deleted, Stray;
    var s' := StrayNow(im, st, stray);
    var rec := Applied(im, st.op).rec;
    forall i | 0 <= i <= n ensures Answers(staged[i], reqs[i]) && (Stray(reqs, n + 1, i) <==>
      if i == n then reqs[n].kind == Update && Deleted(reqs, n, KeyOf(reqs[n].row))
      else Stray(reqs, n, i) && KeyOf(reqs[n].row) != KeyOf(reqs[i].row))
    {
      StrayNext(reqs, n, i);
    }
    StrayKinds(reqs, n);
    forall r | r in s' ensures exists i :: 0 <= i < n + 1 && Stray(reqs, n + 1, i) && staged[i].op.slot == r {
      if r == st.op.slot && st.op.kind == Update && st.op.key !in im.index {
        assert Stray(reqs, n + 1, n);
      } else {
        var i: nat :| i < n && Stray(reqs, n, i) && staged[i].op.slot == r;
        assert Stray(reqs, n + 1, i);
      }
    }
  }

  lemma StrayKinds(reqs: seq<Request>, n: nat)
    requires n <= |reqs|
    ensures forall i :: 0 <= i < n && Stray(reqs, n, i) ==>
              reqs[i].kind == Update && Deleted(reqs, n, KeyOf(reqs[i].row))
  {
  }

  function StrayNow(im: Image, st: Staged, stray: set<nat>): set<nat> {
    if st.op.kind == Update && st.op.key !in im.index then stray + {st.op.slot} else stray
  }

  /** What one applied operation does to the stray slots. */
  lemma StrayKept(im: Image, rowCount: nat, reserved: set<nat>, st: Staged, stray: set<nat>)
    requires RowsOk(im, rowCount, reserved) && StagedOk(im, rowCount, reserved, st) && StrayOk(im, reserved, stray)
    requires (Reserves(st) ==> st.op.key !in im.index) && (st.op.kind == Delete ==> st.op.key in im.index)
    ensures StrayOk(Applied(im, st.op), reserved - {st.op.slot}, StrayNow(im, st, stray))
    ensures (st.op.kind == Update && st.op.key !in im.index) || st.op.slot !in stray
  {
    var t, s := Applied(im, st.op), st.op.slot;
    if st.op.key in im.index {
      assert EntryOk(im, rowCount, reserved, st.op.key);
      assert Live(im, s);
    }
    if st.op.kind == Update && st.op.key !in im.index { DeadSlot(im, rowCount, reserved, st); }
    forall r | r in StrayNow(im, st, stray)
      ensures r < |t.rec| && r !in reserved - {s} && !Live(t, r)
    {
      if r != s { assert r in stray && !Live(im, r); }
    }
  }

  lemma StraysApart(im: Image, reserved: set<nat>, stray: set<nat>, col: nat)
    requires StrayOk(im, reserved, stray)
    ensures Column(im, col).Keys !! StrayCells(im, stray, col).Keys
    ensures StrayCells(im, stray, col).Keys == stray
  {
  }

  lemma StrayInRange(im: Image, reserved: set<nat>, stray: set<nat>)
    requires StrayOk(im, reserved, stray)
    ensures forall r :: r in stray ==> r < |im.rec|
  {
  }

  lemma StrayValues(im: Image, staged: seq<Staged>, reqs: seq<Request>, stray: set<nat>, col: nat)
    requires |staged| == |reqs| && StrayRows(im.rec, staged, reqs, |reqs|, stray)
    requires forall r :: r in stray ==> r < |im.rec|
    ensures NoStrayValue(reqs, col) <==>
      forall r :: r in StrayCells(im, stray, col) ==> !IsValue(StrayCells(im, stray, col)[r])
  {
    hide Stray, EncodeSecValue, CellAt;
    var cells := StrayCells(im, stray, col);
    if forall r :: r in cells ==> !IsValue(cells[r]) {
      forall i | 0 <= i < |reqs| && Stray(reqs, |reqs|, i) ensures !IsValue(CellAt(reqs[i].row, col)) {
        assert staged[i].op.slot in cells;
      }
    }
    if NoStrayValue(reqs, col) {
      forall r | r in cells ensures !IsValue(cells[r]) {
        var i: nat :| i < |reqs| && Stray(reqs, |reqs|, i) && staged[i].op.slot == r;
      }
    }
  }

  // ---- unique columns by key ----

  lemma DistinctByKey(im: Image, rowCount: nat, reserved: set<nat>, col: nat)
    requires RowsOk(im, rowCount, reserved)
    ensures AllDistinct(Column(im, col)) <==> KeysDistinct(RowsByKey(im), col)
  {
    hide RowsOk, EncodeSecValue, CellAt;
    var cells, t := Column(im, col), RowsByKey(im);
    if AllDistinct(cells) {
      forall k, l | k in t && l in t && k != l && IsValue(CellAt(t[k], col))
        ensures CellAt(t[k], col) != CellAt(t[l], col)
      {
        KeyInTable(im, rowCount, reserved, k);
        KeyInTable(im, rowCount, reserved, l);
        KeySlots(im, rowCount, reserved, k, l);
        assert im.index[k] in cells && im.index[l] in cells;
      }
    }
    if KeysDistinct(t, col) {
      forall r, s | r in cells && s in cells && r != s && IsValue(cells[r]) ensures cells[r] != cells[s] {
        var k, l := im.rec[r][0].v, im.rec[s][0].v;
        KeyInTable(im, rowCount, reserved, k);
        KeyInTable(im, rowCount, reserved, l);
        assert k in t && l in t && k != l;
      }
    }
  }

  lemma KeySlots(im: Image, rowCount: nat, reserved: set<nat>, k: int, l: int)
    requires RowsOk(im, rowCount, reserved) && k in im.index && l in im.index && k != l
    ensures im.index[k] != im.index[l]
  {
    assert EntryOk(im, rowCount, reserved, k) && EntryOk(im, rowCount, reserved, l);
  }

  /** What the probe of a unique index says about the other keys' rows. */
  lemma FreeByKey(im: Image, rowCount: nat, reserved: set<nat>, tree: map<nat, nat>, meta: SecMeta, key: int, row: Row,
                  self: Option<nat>)
    requires RowsOk(im, rowCount, reserved) && meta.unique && SecExact(tree, Column(im, meta.col))
    requires if key in im.index then self == Some(im.index[key]) else self == None
    ensures ValueFree(tree, meta, row, self) <==> RowFree(RowsByKey(im), key, row, meta.col)
  {
    hide RowsOk, EncodeSecValue, SecExact, ProbeConflict;
    var c, t, cells := CellAt(row, meta.col), RowsByKey(im), Column(im, meta.col);
    if IsValue(c) {
      ProbeDecides(tree, cells, c, self);
      if !Conflict(cells, c, self) {
        forall l | l in t && l != key ensures c != CellAt(t[l], meta.col) {
          KeyInTable(im, rowCount, reserved, l);
          if key in im.index { KeySlots(im, rowCount, reserved, key, l); }
          assert im.index[l] in cells && cells[im.index[l]] == CellAt(t[l], meta.col);
        }
      } else {
        var r :| r in cells && IsValue(cells[r]) && cells[r] == c && self != Some(r);
        var l := im.rec[r][0].v;
        KeyInTable(im, rowCount, reserved, l);
        assert l in t && l != key && CellAt(t[l], meta.col) == c;
      }
    }
  }

  /** Row r's keys in the indexes, parallel to the index list. */
  function KeysOfRow(metas: seq<SecMeta>, row: Row, r: nat): (keys: seq<Option<nat>>)
    ensures |keys| == |metas|
  {
    seq(|metas|, i requires 0 <= i < |metas| => EntryOf(CellAt(row, metas[i].col), r))
  }

  /** A unique index has no other row with the value this row brings. */
  predicate ValueFree(tree: map<nat, nat>, meta: SecMeta, row: Row, self: Option<nat>) {
    meta.unique && meta.col < |row| && IsValue(row[meta.col]) ==>
      !ProbeConflict(tree, EncodeSecValue(row[meta.col]).value, self)
  }

  lemma NotUnique(tree: map<nat, nat>, meta: SecMeta, row: Row, self: Option<nat>)
    requires !meta.unique
    ensures ValueFree(tree, meta, row, self)
  {
  }

  class Store {
    const nullable: seq<bool>
    const metas: seq<SecMeta>
    const ver: array<nat>
    const rec: array<Row>
    const tomb: array<bool>
    var index: map<int, nat>
    var trees: seq<map<nat, nat>>
    var rowCount: nat
    var committed: nat
    var stagedSlots: set<nat>
    var hint: nat

    ghost function Img(): Image
      reads this, ver, rec, tomb
    {
      Image(ver[..], rec[..], tomb[..], index)
    }

    ghost predicate Shape()
      reads this
    {
      |nullable| > 0 && ver.Length == rec.Length == tomb.Length < TWO32 && |trees| == |metas|
    }

    /** The store with these operations staged and not yet applied. */
    ghost predicate Batch(ops: seq<Staged>)
      reads this, ver, rec, tomb
    {
      Shape() && BatchOk(Img(), rowCount, stagedSlots, ops)
    }

    ghost predicate Counted()
      reads this
    {
      committed == |index|
    }

    /** Every secondary index holds exactly the entries of the live rows. */
    ghost predicate SecOk()
      reads this, ver, rec, tomb
    {
      |trees| == |metas| && forall i :: 0 <= i < |metas| ==> SecExact(trees[i], Column(Img(), metas[i].col))
    }

    /** Every secondary index holds exactly the entries of the live rows and of the stray ones. */
    ghost predicate SecWith(stray: set<nat>)
      reads this, ver, rec, tomb
    {
      && |trees| == |metas| && StrayOk(Img(), stagedSlots, stray)
      && forall i :: 0 <= i < |metas| ==> SecExact(trees[i], Shown(Img(), stray, metas[i].col))
    }

    lemma SecNone()
      ensures SecOk() <==> SecWith({})
    {
      hide SecExact, Column, Shown;
      forall col ensures Shown(Img(), {}, col) == Column(Img(), col) {
        ShownNone(Img(), col);
      }
    }

    /** A unique index has at most one live row per value. */
    ghost predicate UniqueOk()
      reads this, ver, rec, tomb
    {
      forall i :: 0 <= i < |metas| && metas[i].unique ==> AllDistinct(Column(Img(), metas[i].col))
    }

    /** Another key's row has the value that this row brings to a unique column. */
    ghost predicate Taken(key: int, row: Row)
      reads this, ver, rec, tomb
    {
      exists i :: 0 <= i < |metas| && metas[i].unique && !RowFree(RowsByKey(Img()), key, row, metas[i].col)
    }

    /** In every unique column, two rows of the table have different integers, where they have any. */
    ghost predicate RowsUnique()
      reads this, ver, rec, tomb
    {
      forall i :: 0 <= i < |metas| && metas[i].unique ==> KeysDistinct(RowsByKey(Img()), metas[i].col)
    }

    /** What the unique indexes say is what the rows say. */
    lemma TakenIs(key: int, row: Row)
      requires SecOk() && RowsOk(Img(), rowCount, stagedSlots)
      ensures UniqueFree(row, if key in index then Some(index[key]) else None) <==> !Taken(key, row)
    {
      hide RowsOk, ValueFree, RowFree, SecExact, Column, RowsByKey;
      var self := if key in index then Some(index[key]) else None;
      forall i | 0 <= i < |metas| && metas[i].unique
        ensures ValueFree(trees[i], metas[i], row, self) <==> RowFree(RowsByKey(Img()), key, row, metas[i].col)
      {
        FreeByKey(Img(), rowCount, stagedSlots, trees[i], metas[i], key, row, self);
      }
      forall i | 0 <= i < |metas| && !metas[i].unique ensures ValueFree(trees[i], metas[i], row, self) {
        NotUnique(trees[i], metas[i], row, self);
      }
    }

    lemma RowsUniqueIs()
      requires RowsOk(Img(), rowCount, stagedSlots)
      ensures UniqueOk() <==> RowsUnique()
    {
      hide RowsOk, AllDistinct, KeysDistinct, Column, RowsByKey;
      forall i | 0 <= i < |metas|
        ensures AllDistinct(Column(Img(), metas[i].col)) <==> KeysDistinct(RowsByKey(Img()), metas[i].col)
      {
        DistinctByKey(Img(), rowCount, stagedSlots, metas[i].col);
      }
    }

    predicate UniqueDeclared(col: nat) {
      exists i :: 0 <= i < |metas| && metas[i] == SecMeta(col, true)
    }

    constructor (cap: nat, nullable: seq<bool>, metas: seq<SecMeta>)
      requires |nullable| > 0 && cap < TWO32
      ensures Batch([]) && Counted() && SecOk() && UniqueOk() && rowCount == 0 && index == map[]
      ensures this.nullable == nullable && this.metas == metas
      ensures ver.Length == cap && (forall i :: 0 <= i < |metas| ==> trees[i] == map[])
      ensures fresh(ver) && fresh(rec) && fresh(tomb)
    {
      this.nullable, this.metas := nullable, metas;
      ver := new nat[cap](_ => 0);
      rec := new Row[cap](_ => []);
      tomb := new bool[cap](_ => false);
      index, trees := map[], seq(|metas|, _ => map[]);
      rowCount, committed, hint, stagedSlots := 0, 0, 0, {};
      new;
      assert forall col :: Column(Img(), col) == map[];
    }

    /** How far the circular scan from here has to go to row r. */
    function Turn(from: nat, r: nat): int
      reads `rowCount
    {
      if r >= from then r - from else r + rowCount - from
    }

    /** The circular scan for a tombstone that this process has not staged already: the first one from the hint on, and
        the next scan starts behind it. */
    method FindFreeSlot() returns (found: bool, slot: nat)
      requires Shape() && rowCount <= tomb.Length
      modifies `hint
      ensures found ==> slot < rowCount && tomb[slot] && slot !in stagedSlots
      ensures found ==> hint == if slot == rowCount - 1 then 0 else slot + 1
      ensures var from := if old(hint) >= rowCount then 0 else old(hint);
        found ==> forall r :: 0 <= r < rowCount && r !in stagedSlots && tomb[r] ==> Turn(from, slot) <= Turn(from, r)
      ensures !found ==> forall r :: 0 <= r < rowCount && r !in stagedSlots ==> !tomb[r]
    {
      slot := 0;
      var used := rowCount;
      if used == 0 { return false, 0; }
      if hint >= used { hint := 0; }
      for n := 0 to used
        invariant hint < used
        invariant forall r :: 0 <= r < used && r !in stagedSlots && tomb[r] ==>
                    n <= Turn(hint, r)
        invariant hint == if old(hint) >= used then 0 else old(hint)
      {
        var i := hint + n;
        if i >= used { i := i - used; }
        if !tomb[i] { continue; }
        if i in stagedSlots { continue; }
        hint := if i + 1 < used then i + 1 else 0;
        return true, i;
      }
      return false, 0;
    }

    ghost predicate UniqueFree(row: Row, self: Option<nat>)
      reads `trees
      requires |trees| == |metas|
    {
      forall i :: 0 <= i < |metas| ==> ValueFree(trees[i], metas[i], row, self)
    }

    method CheckSecUnique(row: Row, self: Option<nat>) returns (e: Err)
      requires |trees| == |metas|
      ensures e == if UniqueFree(row, self) then Ok else AlreadyExists
    {
      for i := 0 to |metas|
        invariant forall j :: 0 <= j < i ==> ValueFree(trees[j], metas[j], row, self)
      {
        if !metas[i].unique { continue; }
        var col := metas[i].col;
        if col >= |row| { continue; }
        var code := EncodeSecValue(row[col]);
        if code == None { continue; }
        if ProbeConflict(trees[i], code.value, self) {
          assert !ValueFree(trees[i], metas[i], row, self);
          return AlreadyExists;
        }
      }
      return Ok;
    }

    /** Tombstones that no staged insert has taken. */
    ghost function FreeTombs(): set<nat>
      reads `rowCount, `stagedSlots, tomb
    {
      set r: nat | r < rowCount && r < tomb.Length && tomb[r] && r !in stagedSlots
    }

    /** Slots left for inserts. */
    ghost function FreeSlots(): nat
      reads `rowCount, `stagedSlots, tomb
    {
      |FreeTombs()| + if rowCount <= tomb.Length then tomb.Length - rowCount else 0
    }

    lemma NoneFree()
      requires rowCount <= tomb.Length
      ensures FreeSlots() == 0 <==>
        rowCount == tomb.Length && forall r :: 0 <= r < rowCount && r !in stagedSlots ==> !tomb[r]
    {
      if FreeSlots() == 0 {
        forall r | 0 <= r < rowCount && r !in stagedSlots ensures !tomb[r] {
          assert r !in FreeTombs();
        }
      } else if rowCount == tomb.Length {
        assert FreeTombs() != {};
        var r :| r in FreeTombs();
      }
    }

    twostate lemma SlotTaken(slot: nat)
      requires tomb[..] == old(tomb[..]) && stagedSlots == old(stagedSlots) + {slot}
      requires old(slot !in stagedSlots) && old(rowCount) <= tomb.Length
      requires || (rowCount == old(rowCount) && slot < rowCount && tomb[slot])
               || (rowCount == old(rowCount) + 1 <= tomb.Length && slot == old(rowCount))
      ensures FreeSlots() + 1 == old(FreeSlots())
    {
      assert tomb[..] == old(tomb[..]);
      assert forall r :: 0 <= r < tomb.Length ==> tomb[r] == tomb[..][r] && old(tomb[r]) == old(tomb[..])[r];
      if rowCount == old(rowCount) {
        assert slot in old(FreeTombs()) && FreeTombs() == old(FreeTombs()) - {slot};
      } else {
        assert FreeTombs() == old(FreeTombs());
      }
    }

    method StageInsert(row: Row, ghost ops: seq<Staged>) returns (e: Err, st: Staged)
      requires Batch(ops) && AllFresh(Img(), ops)
      modifies `rowCount, `hint, `stagedSlots
      ensures e == Ok ==> Batch(ops + [st]) && AllFresh(Img(), ops + [st])
      ensures e == Ok ==> RowOk(row, nullable) && st.op.kind == Insert && st.op.rec == row && st.op.key == KeyOf(row)
      ensures e == Ok ==>
        && KeyOf(row) !in index && UniqueFree(row, None) && st.op.slot < ver.Length
        && st.op.ver == ver[st.op.slot] + 2
      ensures e != Ok ==> rowCount == old(rowCount) && stagedSlots == old(stagedSlots)
      ensures rowCount <= old(rowCount) + 1
      ensures e == AlreadyExists <==>
        && |row| == |nullable| && row[0].Int?
        && !(KeyOf(row) !in index && UniqueFree(row, None))
      ensures e == OutOfMemory <==>
        && |row| == |nullable| && row[0].Int? && KeyOf(row) !in index && UniqueFree(row, None)
        && old(rowCount) == ver.Length && forall r :: 0 <= r < old(rowCount) && r !in old(stagedSlots) ==> !tomb[r]
      ensures RowOk(row, nullable) && e != AlreadyExists && e != OutOfMemory ==> e == Ok
      ensures e == Ok || e == InvalidArgument || e == AlreadyExists || e == OutOfMemory
      ensures FreeSlots() + (if e == Ok then 1 else 0) == old(FreeSlots())
      ensures e == OutOfMemory ==> FreeSlots() == 0
    {
      hide BatchOk, AllFresh, RowsOk, FreeSlots, UniqueFree;
      st := Staged(Op(Insert, 0, 0, 0, []), false);
      if |row| != |nullable| { return InvalidArgument, st; }
      if !row[0].Int? { return InvalidArgument, st; }
      var key := row[0].v;
      if key in index { return AlreadyExists, st; }
      var u := CheckSecUnique(row, None);
      if u != Ok { return u, st; }
      BatchBounds(ops);
      var reused, slot := FindFreeSlot();
      BatchRowsOk(ops);
      TopNotReserved(Img(), rowCount, stagedSlots);
      if !reused {
        slot := rowCount;
        if slot >= ver.Length {
          NoneFree();
          return OutOfMemory, st;
        }
      }
      var baseVer := ver[slot];
      baseVer := baseVer + baseVer % 2;
      st := Staged(Op(Insert, key, slot, baseVer + 2, row), reused);
      var build := BuildRecord(row);
      if build != Ok { return build, st; }
      if reused {
        StageReused(Img(), rowCount, stagedSlots, ops, st);
      } else {
        StageAtTop(Img(), rowCount, stagedSlots, ops, st);
        rowCount := rowCount + 1;
      }
      stagedSlots := stagedSlots + {slot};
      SlotTaken(slot);
      return Ok, st;
    }

    lemma BatchBounds(ops: seq<Staged>)
      requires Batch(ops)
      ensures rowCount <= ver.Length
      ensures forall k :: k in index ==> EntryOk(Img(), rowCount, stagedSlots, k)
      ensures forall r :: 0 <= r < ver.Length ==> ver[r] % 2 == 0
    {
      forall k | k in index ensures EntryOk(Img(), rowCount, stagedSlots, k) {
      }
      forall r | 0 <= r < ver.Length ensures ver[r] % 2 == 0 {
        assert Img().ver[r] % 2 == 0;
      }
    }

    /** NULL in a column that does not take it is refused while the record is built. */
    method BuildRecord(row: Row) returns (e: Err)
      requires |row| == |nullable| && |row| > 0 && row[0].Int?
      ensures e == if RowOk(row, nullable) then Ok else InvalidArgument
    {
      for i := 0 to |row|
        invariant forall j :: 0 <= j < i ==> row[j].Null? ==> nullable[j]
      {
        if row[i].Null? && !nullable[i] { return InvalidArgument; }
      }
      return Ok;
    }

    method StageUpdate(row: Row, ghost ops: seq<Staged>) returns (e: Err, st: Staged)
      requires Batch(ops) && AllFresh(Img(), ops)
      ensures e == Ok ==> Batch(ops + [st]) && AllFresh(Img(), ops + [st])
      ensures e == Ok ==> RowOk(row, nullable) && st.op.kind == Update && st.op.rec == row && st.op.key == KeyOf(row)
      ensures e == Ok ==>
        && KeyOf(row) in index && UniqueFree(row, Some(st.op.slot)) && st.op.slot < ver.Length
        && st.op.ver == ver[st.op.slot] + 2
      ensures e == NotFound <==> |row| == |nullable| && row[0].Int? && KeyOf(row) !in index
      ensures e == AlreadyExists <==> |row| == |nullable| && row[0].Int? && KeyOf(row) in index
                                       && !UniqueFree(row, Some(index[KeyOf(row)]))
      ensures RowOk(row, nullable) && e != AlreadyExists && e != NotFound ==> e == Ok
      ensures e == Ok || e == InvalidArgument || e == AlreadyExists || e == NotFound
    {
      hide BatchOk, AllFresh, RowsOk;
      st := Staged(Op(Update, 0, 0, 0, []), false);
      if |row| != |nullable| { return InvalidArgument, st; }
      if !row[0].Int? { return InvalidArgument, st; }
      var key := row[0].v;
      if key !in index { return NotFound, st; }
      var slot := index[key];
      BatchBounds(ops);
      if slot >= ver.Length { return Corruption, st; }
      if tomb[slot] { return NotFound, st; }
      var u := CheckSecUnique(row, Some(slot));
      if u != Ok { return u, st; }
      st := Staged(Op(Update, key, slot, ver[slot] + 2, row), false);
      var build := BuildRecord(row);
      if build != Ok { return build, st; }
      StageOnRow(Img(), rowCount, stagedSlots, ops, st);
      return Ok, st;
    }

    method StageRemove(key: int, ghost ops: seq<Staged>) returns (e: Err, st: Staged)
      requires Batch(ops) && AllFresh(Img(), ops)
      ensures e == if key in index then Ok else NotFound
      ensures e == Ok ==> Batch(ops + [st]) && AllFresh(Img(), ops + [st])
      ensures e == Ok ==>
        && st.op.kind == Delete && st.op.key == key && st.op.slot < ver.Length
        && st.op.ver == ver[st.op.slot] + 2
    {
      hide BatchOk, AllFresh, RowsOk;
      st := Staged(Op(Delete, key, 0, 0, []), false);
      if key !in index { return NotFound, st; }
      var slot := index[key];
      BatchBounds(ops);
      if slot >= ver.Length { return Corruption, st; }
      if tomb[slot] { return NotFound, st; }
      st := Staged(Op(Delete, key, slot, ver[slot] + 2, []), false);
      StageOnRow(Img(), rowCount, stagedSlots, ops, st);
      return Ok, st;
    }

    // ---- secondary index maintenance ----

    method SecKeysOfRow(r: nat) returns (keys: seq<Option<nat>>)
      requires r < rec.Length
      ensures keys == KeysOfRow(metas, rec[r], r)
    {
      keys := [];
      for i := 0 to |metas|
        invariant keys == KeysOfRow(metas, rec[r], r)[..i]
      {
        keys := keys + [EntryOf(CellAt(rec[r], metas[i].col), r)];
      }
    }

    method InsertSecKeys(keys: seq<Option<nat>>, r: nat, refusedAt: nat) returns (e: Err)
      requires |keys| == |trees|
      modifies `trees
      ensures |trees| == |old(trees)|
      ensures e == if refusedAt < |keys| && keys[refusedAt].Some? then OutOfMemory else Ok
      ensures e == Ok ==> forall i :: 0 <= i < |keys| ==> trees[i] == WithEntry(old(trees)[i], keys[i], r)
    {
      for i := 0 to |keys|
        invariant |trees| == |old(trees)| && (refusedAt < i ==> keys[refusedAt] == None)
        invariant forall j :: 0 <= j < i ==> trees[j] == WithEntry(old(trees)[j], keys[j], r)
        invariant forall j :: i <= j < |keys| ==> trees[j] == old(trees)[j]
      {
        if keys[i] == None { continue; }
        if i == refusedAt { return OutOfMemory; }
        var tree: map<nat, nat> := trees[i][keys[i].value := r];
        trees := trees[i := tree];
      }
      return Ok;
    }

    method RemoveSecKeys(keys: seq<Option<nat>>)
      requires |keys| == |trees|
      modifies `trees
      ensures |trees| == |old(trees)|
      ensures forall i :: 0 <= i < |keys| ==> trees[i] == WithoutEntry(old(trees)[i], keys[i])
    {
      for i := 0 to |keys|
        invariant |trees| == |old(trees)|
        invariant forall j :: 0 <= j < i ==> trees[j] == WithoutEntry(old(trees)[j], keys[j])
        invariant forall j :: i <= j < |keys| ==> trees[j] == old(trees)[j]
      {
        if keys[i] == None { continue; }
        trees := trees[i := trees[i] - {keys[i].value}];
      }
    }

    // ---- applying ----

    /** One operation that recovery's histories admit has been applied. */
    twostate predicate OneStep(kind: Kind, key: int)
      reads this, ver, rec, tomb
    {
      exists op: Op :: (op.kind == kind && op.key == key && Steady(old(Img())) && Stageable(old(Img()), op)
                        && op.ver == old(Img()).ver[op.slot] + 2 && Img() == Applied(old(Img()), op))
    }

    /** The rows and indexes read as before. */
    twostate predicate SameTable()
      reads this, ver, rec, tomb
    {
      && RowsByKey(Img()) == RowsByKey(old(Img())) && index == old(index) && trees == old(trees)
      && committed == old(committed)
      && forall col :: Column(Img(), col) == Column(old(Img()), col)
    }

    twostate predicate Unseen()
      reads this, ver, rec, tomb
    {
      SameTable() && rowCount == old(rowCount) && stagedSlots == old(stagedSlots)
    }

    /** The stores of an insertion, in the order in which a crash can fall between them. */
    method StoreInsert(st: Staged) returns (ghost steps: seq<Image>)
      requires Shape() && Fits(Img(), st.op) && st.op.kind == Insert
      modifies ver, rec, tomb
      ensures steps == Passes(old(Img()), st.op)[..4] && Img() == steps[3]
    {
      ghost var im := Img();
      ver[st.op.slot] := 1;
      steps := [Img()];
      assert Img() == After(im, st.op, 1, st.op.rec);
      rec[st.op.slot] := st.op.rec;
      steps := steps + [Img()];
      assert Img() == After(im, st.op, 3, st.op.rec);
      tomb[st.op.slot] := false;
      steps := steps + [Img()];
      assert Img() == After(im, st.op, 4, st.op.rec);
      ver[st.op.slot] := st.op.ver;
      steps := steps + [Img()];
    }

    /** The stores of an update. */
    method StoreUpdate(st: Staged) returns (ghost steps: seq<Image>)
      requires Shape() && Fits(Img(), st.op) && st.op.kind == Update
      modifies ver, rec
      ensures steps == Passes(old(Img()), st.op) && Img() == Applied(old(Img()), st.op)
    {
      ghost var im := Img();
      ver[st.op.slot] := st.op.ver - 1;
      steps := [Img()];
      assert Img() == After(im, st.op, 1, st.op.rec);
      rec[st.op.slot] := st.op.rec;
      steps := steps + [Img()];
      assert Img() == After(im, st.op, 3, st.op.rec);
      ver[st.op.slot] := st.op.ver;
      steps := steps + [Img()];
      AfterAll(im, st.op, st.op.rec);
    }

    /** The stores of a delete, the key's removal from the index included. */
    method StoreDelete(st: Staged) returns (ghost steps: seq<Image>)
      requires Shape() && Fits(Img(), st.op) && st.op.kind == Delete
      modifies ver, tomb, `index
      ensures steps == Passes(old(Img()), st.op) && Img() == Applied(old(Img()), st.op)
    {
      ghost var im := Img();
      ver[st.op.slot] := st.op.ver - 1;
      steps := [Img()];
      assert Img() == After(im, st.op, 1, st.op.rec);
      tomb[st.op.slot] := true;
      steps := steps + [Img()];
      ver[st.op.slot] := st.op.ver;
      steps := steps + [Img()];
      index := index - {st.op.key};
      steps := steps + [Img()];
      AfterAll(im, st.op, st.op.rec);
    }

    /** The two stores that withdraw a row whose key the index has refused. */
    method Withdraw(s: nat) returns (ghost steps: seq<Image>)
      requires Shape() && s < ver.Length
      modifies ver, rec
      ensures var blank := SetRec(old(Img()), s, []);
        steps == [blank, SetVer(blank, s, 0)] && Img() == steps[1]
    {
      rec[s] := [];
      steps := [Img()];
      ver[s] := 0;
      steps := steps + [Img()];
    }

    /** The row's own writes, and their withdrawal when the primary index does not take the key. */
    method WriteInsert(st: Staged, refused: bool, ghost rest: seq<Staged>) returns (e: Err)
      requires Batch([st] + rest) && st.op.kind == Insert
      modifies ver, rec, tomb
      ensures Fits(old(Img()), st.op)
      ensures e == if refused then OutOfMemory else if st.op.key in index then AlreadyExists else Ok
      ensures e == Ok ==>
        && ver[..] == old(ver[..])[st.op.slot := st.op.ver]
        && rec[..] == old(rec[..])[st.op.slot := st.op.rec]
      ensures e == Ok ==> tomb[..] == old(tomb[..])[st.op.slot := false]
      ensures e != Ok ==> Batch([st] + rest) && Unseen()
    {
      hide BatchOk, RowsOk, StagedOk, Column, RowsByKey;
      ghost var im, ops := Img(), [st] + rest;
      FirstStaged(st, rest);
      var s := st.op.slot;
      ghost var _ := StoreInsert(st);
      AfterAll(im, st.op, st.op.rec);
      e := if refused then OutOfMemory else if st.op.key in index then AlreadyExists else Ok;
      if e != Ok {
        ghost var _ := Withdraw(s);
        assert Img() == Blanked(im, s);
        BlankFirst(im, rowCount, stagedSlots, ops);
        RowsBlank(im, rowCount, stagedSlots, s);
      }
    }

    method ApplyInsert(st: Staged, refused: bool, secRefusedAt: nat, ghost rest: seq<Staged>, ghost stray: set<nat>)
      returns (e: Err, published: bool)
      requires Batch([st] + rest) && st.op.kind == Insert
      modifies this, ver, rec, tomb
      ensures Fits(old(Img()), st.op) && rowCount == old(rowCount)
      ensures published <==> !refused && st.op.key !in old(index)
      ensures published ==> Batch(rest) && Img() == Applied(old(Img()), st.op) && st.op.slot !in stagedSlots
      ensures published ==> RowsByKey(Img()) == StepRows(RowsByKey(old(Img())), st.op)
      ensures !published ==> e != Ok && Batch([st] + rest) && Unseen()
      ensures published && (secRefusedAt >= |metas| || metas == []) ==> e == Ok
      ensures e == Ok || e == OutOfMemory || (e == AlreadyExists && st.op.key in old(index))
      ensures e == Ok ==> published && committed == old(committed) + 1
      ensures e == Ok && old(SecWith(stray)) ==> SecWith(stray)
    {
      hide BatchOk, RowsOk, StagedOk, SecExact, Column, Shown, StrayOk, RowsByKey, StepRows, KeysOfRow;
      ghost var im, ops := Img(), [st] + rest;
      FirstStaged(st, rest);
      var s := st.op.slot;
      e := WriteInsert(st, refused, rest);
      if e != Ok { return e, false; }
      index := index[st.op.key := s];
      published := true;
      stagedSlots := stagedSlots - {s};
      assert Img() == Applied(im, st.op);
      ApplyFirst(im, rowCount, old(stagedSlots), ops);
      assert ops[1..] == rest;
      RowsStep(im, rowCount, old(stagedSlots), st);
      e := EnterRow(st, secRefusedAt, im, old(stagedSlots), old(SecWith(stray)), stray);
      if e != Ok { return; }
      committed := committed + 1;
    }

    /** A row that has just been published enters the secondary indexes. */
    method EnterRow(st: Staged, secRefusedAt: nat, ghost im: Image, ghost reserved: set<nat>, ghost exact: bool,
                    ghost stray: set<nat>)
      returns (e: Err)
      requires Shape() && st.op.slot < rec.Length && rec[st.op.slot] == st.op.rec && Reserves(st)
      requires RowsOk(im, rowCount, reserved) && StagedOk(im, rowCount, reserved, st) && st.op.slot < TWO63
      requires st.op.key !in im.index && Img() == Applied(im, st.op)
      requires stagedSlots == reserved - {st.op.slot}
      requires exact ==> StrayOk(im, reserved, stray)
      requires exact ==> forall i :: 0 <= i < |metas| ==> SecExact(trees[i], Shown(im, stray, metas[i].col))
      modifies `trees
      ensures |trees| == |old(trees)|
      ensures e == Ok || (e == OutOfMemory && secRefusedAt < |metas|)
      ensures exact && e == Ok ==> SecWith(stray)
    {
      hide RowsOk, StagedOk, SecExact, Column, Shown, StrayOk, Applied;
      ghost var t0 := trees;
      if exact { StrayKept(im, rowCount, reserved, st, stray); }
      if |metas| == 0 { return Ok; }
      var keys := SecKeysOfRow(st.op.slot);
      e := InsertSecKeys(keys, st.op.slot, secRefusedAt);
      if exact && e == Ok {
        SecAfterInsert(im, t0, reserved, st, stray);
      }
    }

    lemma SecAfterInsert(im: Image, t0: seq<map<nat, nat>>, reserved: set<nat>, st: Staged, stray: set<nat>)
      requires RowsOk(im, rowCount, reserved) && StagedOk(im, rowCount, reserved, st) && st.op.slot < TWO63
      requires Reserves(st) && st.op.key !in im.index && Img() == Applied(im, st.op) && StrayOk(im, reserved, stray)
      requires |trees| == |t0| == |metas| && StrayOk(Img(), stagedSlots, stray)
      requires forall i :: 0 <= i < |metas| ==> SecExact(t0[i], Shown(im, stray, metas[i].col))
      requires forall i :: 0 <= i < |metas| ==>
                 trees[i] == WithEntry(t0[i], KeysOfRow(metas, st.op.rec, st.op.slot)[i], st.op.slot)
      ensures SecWith(stray)
    {
      hide SecExact, Column, Shown, StrayOk, RowsOk, StagedOk, Applied;
      forall i | 0 <= i < |metas| ensures SecExact(trees[i], Shown(Img(), stray, metas[i].col)) {
        ShownInsert(im, rowCount, reserved, st, stray, metas[i].col);
        RowEnters(t0[i], Shown(im, stray, metas[i].col), st.op.slot, CellAt(st.op.rec, metas[i].col));
      }
    }

    lemma FirstStaged(st: Staged, rest: seq<Staged>)
      requires Batch([st] + rest)
      ensures Fits(Img(), st.op) && RowsOk(Img(), rowCount, stagedSlots) && st.op.slot < TWO63
      ensures StagedOk(Img(), rowCount, stagedSlots, st) && ([st] + rest)[0] == st && ([st] + rest)[1..] == rest
      ensures st.op.kind == Insert ==> st.op.slot in stagedSlots
      ensures st.op.kind != Insert ==> st.op.slot !in stagedSlots
    {
      assert StagedOk(Img(), rowCount, stagedSlots, ([st] + rest)[0]);
    }

    method ApplyUpdate(st: Staged, secRefusedAt: nat, ghost rest: seq<Staged>, ghost stray: set<nat>) returns (e: Err)
      requires Batch([st] + rest) && st.op.kind == Update
      modifies `trees, ver, rec
      ensures Fits(old(Img()), st.op)
      ensures Batch(rest) && Img() == Applied(old(Img()), st.op)
      ensures RowsByKey(Img()) == StepRows(RowsByKey(old(Img())), st.op)
      ensures e == Ok || (e == OutOfMemory && secRefusedAt < |metas|)
      ensures e == Ok && old(SecWith(stray)) ==> SecWith(StrayNow(old(Img()), st, stray))
    {
      hide BatchOk, RowsOk, StagedOk, SecExact, Column, Shown, StrayOk, RowsByKey;
      ghost var im, t0, ops := Img(), trees, [st] + rest;
      FirstStaged(st, rest);
      var s := st.op.slot;
      var oldKeys: seq<Option<nat>> := [];
      if |metas| != 0 { oldKeys := SecKeysOfRow(s); }
      ghost var _ := StoreUpdate(st);
      e := Ok;
      ApplyFirst(im, rowCount, stagedSlots, ops);
      assert ops[1..] == rest && stagedSlots - {s} == stagedSlots;
      RowsStep(im, rowCount, stagedSlots, st);
      if old(SecWith(stray)) { StrayKept(im, rowCount, stagedSlots, st, stray); }
      if |metas| != 0 {
        var newKeys := SecKeysOfRow(s);
        RemoveSecKeys(oldKeys);
        e := InsertSecKeys(newKeys, s, secRefusedAt);
        if e != Ok { return; }
        if old(SecWith(stray)) {
          SecAfterUpdate(im, t0, st, stray);
        }
      }
    }

    lemma SecAfterUpdate(im: Image, t0: seq<map<nat, nat>>, st: Staged, stray: set<nat>)
      requires RowsOk(im, rowCount, stagedSlots) && StagedOk(im, rowCount, stagedSlots, st) && st.op.slot < TWO63
      requires st.op.kind == Update && Img() == Applied(im, st.op) && StrayOk(im, stagedSlots, stray)
      requires |trees| == |t0| == |metas| && StrayOk(Img(), stagedSlots, StrayNow(im, st, stray))
      requires forall i :: 0 <= i < |metas| ==> SecExact(t0[i], Shown(im, stray, metas[i].col))
      requires forall i :: 0 <= i < |metas| ==>
                 trees[i] == WithEntry(WithoutEntry(t0[i], KeysOfRow(metas, im.rec[st.op.slot], st.op.slot)[i]),
                                       KeysOfRow(metas, st.op.rec, st.op.slot)[i], st.op.slot)
      ensures SecWith(StrayNow(im, st, stray))
    {
      hide SecExact, Column, Shown, StrayOk, RowsOk, StagedOk, Applied;
      FitsStaged(im, rowCount, stagedSlots, st);
      forall i | 0 <= i < |metas|
        ensures SecExact(trees[i], Shown(Img(), StrayNow(im, st, stray), metas[i].col))
      {
        var col := metas[i].col;
        var cells, c := Shown(im, stray, col), CellAt(st.op.rec, col);
        if st.op.key in im.index {
          ShownUpdate(im, rowCount, stagedSlots, st, stray, col);
        } else {
          ShownStray(im, rowCount, stagedSlots, st, stray, col);
        }
        if st.op.slot in cells {
          RowChanges(t0[i], cells, st.op.slot, c);
        } else {
          NoEntry(t0[i], cells, st.op.slot, CellAt(im.rec[st.op.slot], col));
          RowEnters(t0[i], cells, st.op.slot, c);
        }
      }
    }

    method ApplyDelete(st: Staged, ghost rest: seq<Staged>, ghost stray: set<nat>) returns (e: Err)
      requires Batch([st] + rest) && st.op.kind == Delete
      modifies `index, `trees, `committed, ver, tomb
      ensures Fits(old(Img()), st.op)
      ensures Batch(rest) && Img() == Applied(old(Img()), st.op)
      ensures RowsByKey(Img()) == StepRows(RowsByKey(old(Img())), st.op)
      ensures e == if st.op.key in old(index) then Ok else NotFound
      ensures committed == if e == Ok && old(committed) > 0 then old(committed) - 1 else old(committed)
      ensures e == Ok && old(SecWith(stray)) ==> SecWith(stray)
    {
      hide BatchOk, RowsOk, StagedOk, SecExact, Column, Shown, StrayOk, RowsByKey;
      ghost var im, t0, ops := Img(), trees, [st] + rest;
      FirstStaged(st, rest);
      var s := st.op.slot;
      var oldKeys: seq<Option<nat>> := [];
      if |metas| != 0 { oldKeys := SecKeysOfRow(s); }
      var found := st.op.key in index;
      ghost var _ := StoreDelete(st);
      ApplyFirst(im, rowCount, stagedSlots, ops);
      assert ops[1..] == rest && stagedSlots - {s} == stagedSlots;
      RowsStep(im, rowCount, stagedSlots, st);
      if !found { return NotFound; }
      if old(SecWith(stray)) { StrayKept(im, rowCount, stagedSlots, st, stray); }
      if |metas| != 0 {
        RemoveSecKeys(oldKeys);
        if old(SecWith(stray)) {
          SecAfterDelete(im, t0, st, stray);
        }
      }
      if committed > 0 { committed := committed - 1; }
      return Ok;
    }

    lemma SecAfterDelete(im: Image, t0: seq<map<nat, nat>>, st: Staged, stray: set<nat>)
      requires RowsOk(im, rowCount, stagedSlots) && StagedOk(im, rowCount, stagedSlots, st)
      requires st.op.kind == Delete && st.op.key in im.index && Img() == Applied(im, st.op)
      requires StrayOk(im, stagedSlots, stray) && StrayOk(Img(), stagedSlots, stray)
      requires |trees| == |t0| == |metas|
      requires forall i :: 0 <= i < |metas| ==> SecExact(t0[i], Shown(im, stray, metas[i].col))
      requires forall i :: 0 <= i < |metas| ==>
                 trees[i] == WithoutEntry(t0[i], KeysOfRow(metas, im.rec[st.op.slot], st.op.slot)[i])
      ensures SecWith(stray)
    {
      hide SecExact, Column, Shown, StrayOk, RowsOk, StagedOk, Applied;
      forall i | 0 <= i < |metas| ensures SecExact(trees[i], Shown(Img(), stray, metas[i].col)) {
        ShownDelete(im, rowCount, stagedSlots, st, stray, metas[i].col);
        RowLeaves(t0[i], Shown(im, stray, metas[i].col), st.op.slot);
      }
    }

    /** Applies the first staged operation. What is published can no longer be taken back. */
    method ApplyStaged(st: Staged, refused: bool, secRefusedAt: nat, ghost rest: seq<Staged>, ghost stray: set<nat>)
      returns (e: Err, published: bool)
      requires Batch([st] + rest)
      modifies this, ver, rec, tomb
      ensures rowCount == old(rowCount)
      ensures published <==> st.op.kind != Insert || (!refused && st.op.key !in old(index))
      ensures published ==> Batch(rest) && RowsByKey(Img()) == StepRows(RowsByKey(old(Img())), st.op)
      ensures published ==> Fits(old(Img()), st.op) && Img() == Applied(old(Img()), st.op)
      ensures published && st.op.kind == Insert ==> st.op.slot !in stagedSlots
      ensures !published ==> e != Ok && Batch([st] + rest) && Unseen()
      ensures e == Ok ==> published && (st.op.kind == Delete ==> st.op.key in old(index))
      ensures e == AlreadyExists ==> st.op.kind == Insert && st.op.key in old(index)
      ensures e == NotFound ==> st.op.kind == Delete && st.op.key !in old(index)
      ensures e == Ok || e == OutOfMemory || e == AlreadyExists || e == NotFound
      ensures (published && (secRefusedAt >= |metas| || metas == [])
               && (st.op.kind == Delete ==> st.op.key in old(index))) ==> e == Ok
      ensures old(Counted()) && (e == Ok || metas == []) ==> Counted()
      ensures e == Ok && old(SecWith(stray)) ==> SecWith(StrayNow(old(Img()), st, stray))
      ensures published ==> index == (match st.op.kind
                                      case Insert => old(index)[st.op.key := st.op.slot]
                                      case Update => old(index)
                                      case Delete => old(index) - {st.op.key})
    {
      hide BatchOk, SecExact, Column, Shown, StrayOk, RowsByKey;
      match st.op.kind {
        case Insert =>
          e, published := ApplyInsert(st, refused, secRefusedAt, rest, stray);
        case Update =>
          published := true;
          e := ApplyUpdate(st, secRefusedAt, rest, stray);
        case Delete =>
          published := true;
          e := ApplyDelete(st, rest, stray);
          assert index.Keys == old(index).Keys - {st.op.key};
      }
    }

    // ---- releasing ----

    /** Gives back what an unapplied operation reserved; of a published one nothing is taken back. */
    method ReleaseStaged(st: Staged, published: bool, ghost front: seq<Staged>)
      requires if published then st.op.kind == Insert ==> st.op.slot !in stagedSlots else Batch(front + [st])
      modifies `stagedSlots, `rowCount, tomb
      ensures !published ==> Batch(front)
      ensures !published ==> RowsByKey(Img()) == RowsByKey(old(Img()))
      ensures !published ==> forall col :: Column(Img(), col) == Column(old(Img()), col)
      ensures published ==> stagedSlots == old(stagedSlots) && rowCount == old(rowCount) && tomb[..] == old(tomb[..])
    {
      hide BatchOk, RowsOk, Column, RowsByKey;
      ghost var im, rc, res, ops := Img(), rowCount, stagedSlots, front + [st];
      if !published {
        ReleaseLast(im, rc, res, ops);
        assert ops[|ops| - 1] == st && ops[..|ops| - 1] == front;
        RowsRelease(im, st);
      }
      if st.op.kind == Insert { stagedSlots := stagedSlots - {st.op.slot}; }
      if !published && st.reused && st.op.kind == Insert { tomb[st.op.slot] := true; }
      if !published && !st.reused && st.op.kind == Insert && rowCount > 0 && st.op.slot + 1 == rowCount {
        rowCount := rowCount - 1;
      }
      if !published {
        assert Img() == ReleasedTomb(im, st);
      }
    }

    // ---- single-row operations ----

    lemma UniqueAfter(im: Image, t0: seq<map<nat, nat>>, st: Staged, self: Option<nat>)
      requires |t0| == |metas| && st.op.slot < |im.ver| == |im.rec| == |im.tomb| && |st.op.rec| == |nullable|
      requires forall i :: 0 <= i < |metas| ==> SecExact(t0[i], Column(im, metas[i].col))
      requires forall i :: 0 <= i < |metas| && metas[i].unique ==> AllDistinct(Column(im, metas[i].col))
      requires forall i :: 0 <= i < |metas| ==>
                 Column(Img(), metas[i].col) == Column(im, metas[i].col)[st.op.slot := CellAt(st.op.rec, metas[i].col)]
      requires forall i :: 0 <= i < |metas| ==> ValueFree(t0[i], metas[i], st.op.rec, self)
      requires self == None || self == Some(st.op.slot)
      ensures UniqueOk()
    {
      hide SecExact, Column, ProbeConflict;
      forall i | 0 <= i < |metas| && metas[i].unique ensures AllDistinct(Column(Img(), metas[i].col)) {
        var c := CellAt(st.op.rec, metas[i].col);
        assert ValueFree(t0[i], metas[i], st.op.rec, self);
        if IsValue(c) {
          ProbeDecides(t0[i], Column(im, metas[i].col), c, self);
        }
        DistinctSet(Column(im, metas[i].col), st.op.slot, c, self);
      }
    }

    lemma DistinctSet(cells: map<nat, Cell>, r: nat, c: Cell, self: Option<nat>)
      requires AllDistinct(cells) && (self == None || self == Some(r))
      requires IsValue(c) ==> !Conflict(cells, c, self)
      ensures AllDistinct(cells[r := c])
    {
      var d := cells[r := c];
      forall x, y | x in d && y in d && x != y && IsValue(d[x]) ensures d[x] != d[y] {
        var z := if x == r then y else x;
        assert IsValue(c) && cells[z] == c && z != r ==> Conflict(cells, c, self);
      }
    }

    /** Neither an unused slot nor a tombstone is left. */
    predicate Full()
      reads this, ver, tomb
    {
      rowCount == ver.Length && forall r :: 0 <= r < rowCount && r < tomb.Length ==> !tomb[r]
    }

    method InsertRow(row: Row, refused: bool, secRefusedAt: nat) returns (e: Err)
      requires Batch([])
      modifies this, ver, rec, tomb
      ensures Batch([])
      ensures old(Counted()) && (e == Ok || metas == []) ==> Counted()
      ensures e == Ok ==> RowOk(row, nullable) && KeyOf(row) !in old(index) && old(UniqueFree(row, None))
      ensures e == AlreadyExists <==>
        && |row| == |nullable| && row[0].Int?
        && !(KeyOf(row) !in old(index) && old(UniqueFree(row, None)))
      ensures old(SecOk()) ==> (e == AlreadyExists <==>
        && |row| == |nullable| && row[0].Int?
        && (KeyOf(row) in old(index) || old(Taken(KeyOf(row), row))))
      ensures e == Ok || e == InvalidArgument || e == AlreadyExists || e == OutOfMemory
      ensures secRefusedAt >= |metas| ==>
        (e == Ok <==> e != AlreadyExists && RowOk(row, nullable) && !old(Full()) && !refused)
      ensures e == OutOfMemory ==> old(Full()) || (RowOk(row, nullable) && (refused || secRefusedAt < |metas|))
      ensures e == InvalidArgument ==> !RowOk(row, nullable)
      ensures e != Ok && (secRefusedAt >= |metas| || metas == []) ==> SameTable()
      ensures e == Ok ==> RowsByKey(Img()) == RowsByKey(old(Img()))[KeyOf(row) := row]
      ensures e == Ok ==> OneStep(Insert, KeyOf(row))
      ensures e == Ok && old(SecOk()) ==> SecOk()
      ensures e == Ok && old(SecOk()) && old(UniqueOk()) ==> UniqueOk() && RowsUnique()
    {
      hide BatchOk, SecExact, Column, RowsByKey, RowsOk, SecWith, AllDistinct, ValueFree, StagedOk, Applied, Steady,
        Stageable, RowsUnique;
      ghost var im, t0 := Img(), trees;
      QuietRows();
      if SecOk() { TakenIs(KeyOf(row), row); }
      var st;
      e, st := StageInsert(row, []);
      if e != Ok { return; }
      assert [] + [st] == [st] + [];
      FirstStaged(st, []);
      ghost var res, rc := stagedSlots, rowCount;
      assert Img() == im && forall i :: 0 <= i < |metas| ==> ValueFree(t0[i], metas[i], row, None);
      var published;
      SecNone();
      e, published := ApplyStaged(st, refused, secRefusedAt, [], {});
      SecNone();
      if e != Ok {
        ReleaseStaged(st, published, []);
        return;
      }
      StagedIsStageable(im, rc, res, st);
      if old(SecOk()) && old(UniqueOk()) {
        InsertedUnique(im, t0, rc, res, st);
        QuietRows();
        RowsUniqueIs();
      }
    }

    lemma InsertedUnique(im: Image, t0: seq<map<nat, nat>>, rc: nat, res: set<nat>, st: Staged)
      requires RowsOk(im, rc, res) && StagedOk(im, rc, res, st) && Reserves(st) && st.op.key !in im.index
      requires Img() == Applied(im, st.op) && |t0| == |metas| && |st.op.rec| == |nullable|
      requires forall i :: 0 <= i < |metas| ==> SecExact(t0[i], Column(im, metas[i].col))
      requires forall i :: 0 <= i < |metas| && metas[i].unique ==> AllDistinct(Column(im, metas[i].col))
      requires forall i :: 0 <= i < |metas| ==> ValueFree(t0[i], metas[i], st.op.rec, None)
      ensures UniqueOk()
    {
      hide SecExact, Column, AllDistinct, RowsOk, ValueFree;
      FitsStaged(im, rc, res, st);
      forall i | 0 <= i < |metas|
        ensures Column(Img(), metas[i].col) == Column(im, metas[i].col)[st.op.slot := CellAt(st.op.rec, metas[i].col)]
      {
        ColumnInsert(im, rc, res, st, metas[i].col);
      }
      UniqueAfter(im, t0, st, None);
    }

    method UpdateRow(row: Row, secRefusedAt: nat) returns (e: Err)
      requires Batch([])
      modifies this, ver, rec, tomb
      ensures Batch([])
      ensures old(Counted()) && (e == Ok || metas == []) ==> Counted()
      ensures e == Ok ==> RowOk(row, nullable) && KeyOf(row) in old(index)
      ensures e == NotFound <==> |row| == |nullable| && row[0].Int? && KeyOf(row) !in old(index)
      ensures e == AlreadyExists <==> |row| == |nullable| && row[0].Int? && KeyOf(row) in old(index)
                                       && !old(UniqueFree(row, Some(index[KeyOf(row)])))
      ensures old(SecOk()) ==> (e == AlreadyExists <==>
        |row| == |nullable| && row[0].Int? && KeyOf(row) in old(index) && old(Taken(KeyOf(row), row)))
      ensures e == Ok || e == InvalidArgument || e == NotFound || e == AlreadyExists || e == OutOfMemory
      ensures secRefusedAt >= |metas| ==> (e == Ok <==> e != NotFound && e != AlreadyExists && RowOk(row, nullable))
      ensures e == OutOfMemory ==> secRefusedAt < |metas|
      ensures e == InvalidArgument ==> !RowOk(row, nullable)
      ensures e != Ok && (secRefusedAt >= |metas| || metas == []) ==> SameTable()
      ensures e == Ok ==> RowsByKey(Img()) == RowsByKey(old(Img()))[KeyOf(row) := row]
      ensures e == Ok ==> OneStep(Update, KeyOf(row))
      ensures e == Ok && old(SecOk()) ==> SecOk()
      ensures e == Ok && old(SecOk()) && old(UniqueOk()) ==> UniqueOk() && RowsUnique()
    {
      hide BatchOk, SecExact, Column, RowsByKey, RowsOk, SecWith, AllDistinct, ValueFree, StagedOk, Applied, Steady,
        Stageable;
      ghost var im, t0 := Img(), trees;
      QuietRows();
      if SecOk() { TakenIs(KeyOf(row), row); }
      var st;
      e, st := StageUpdate(row, []);
      if e != Ok { return; }
      assert [] + [st] == [st] + [];
      FirstStaged(st, []);
      InTable(im, rowCount, stagedSlots, st.op.key);
      ghost var res, rc := stagedSlots, rowCount;
      assert forall i :: 0 <= i < |metas| ==> ValueFree(t0[i], metas[i], row, Some(st.op.slot));
      var published;
      SecNone();
      e, published := ApplyStaged(st, false, secRefusedAt, [], {});
      SecNone();
      if e != Ok {
        ReleaseStaged(st, published, []);
        return;
      }
      StagedIsStageable(im, rc, res, st);
      if old(SecOk()) && old(UniqueOk()) {
        UpdatedUnique(im, t0, rc, res, st);
        QuietRows();
        RowsUniqueIs();
      }
    }

    lemma UpdatedUnique(im: Image, t0: seq<map<nat, nat>>, rc: nat, res: set<nat>, st: Staged)
      requires RowsOk(im, rc, res) && StagedOk(im, rc, res, st) && st.op.kind == Update && st.op.key in im.index
      requires Img() == Applied(im, st.op) && |t0| == |metas| && |st.op.rec| == |nullable|
      requires forall i :: 0 <= i < |metas| ==> SecExact(t0[i], Column(im, metas[i].col))
      requires forall i :: 0 <= i < |metas| && metas[i].unique ==> AllDistinct(Column(im, metas[i].col))
      requires forall i :: 0 <= i < |metas| ==> ValueFree(t0[i], metas[i], st.op.rec, Some(st.op.slot))
      ensures UniqueOk()
    {
      hide SecExact, Column, AllDistinct, RowsOk, ValueFree;
      FitsStaged(im, rc, res, st);
      forall i | 0 <= i < |metas|
        ensures Column(Img(), metas[i].col) == Column(im, metas[i].col)[st.op.slot := CellAt(st.op.rec, metas[i].col)]
      {
        ColumnUpdate(im, rc, res, st, metas[i].col);
      }
      UniqueAfter(im, t0, st, Some(st.op.slot));
    }

    lemma InTable(im: Image, rc: nat, res: set<nat>, k: int)
      requires RowsOk(im, rc, res)
      ensures k in im.index <==> k in RowsByKey(im)
    {
      if k in im.index { assert EntryOk(im, rc, res, k); }
    }

    method RemoveRow(key: int) returns (e: Err)
      requires Batch([])
      modifies this, ver, rec, tomb
      ensures Batch([])
      ensures old(Counted()) ==> Counted()
      ensures e == if key in old(index) then Ok else NotFound
      ensures RowsByKey(Img()) == RowsByKey(old(Img())) - {key}
      ensures e == Ok ==> OneStep(Delete, key)
      ensures old(SecOk()) ==> SecOk()
      ensures old(SecOk()) && old(UniqueOk()) ==> UniqueOk()
    {
      hide BatchOk, SecExact, Column, RowsByKey, RowsOk, SecWith, Steady, Stageable;
      ghost var im := Img();
      QuietRows();
      InTable(im, rowCount, stagedSlots, key);
      var st;
      e, st := StageRemove(key, []);
      if e != Ok {
        assert RowsByKey(Img()) - {key} == RowsByKey(Img());
        return;
      }
      assert [] + [st] == [st] + [];
      FirstStaged(st, []);
      ghost var res, rc := stagedSlots, rowCount;
      var published;
      SecNone();
      e, published := ApplyStaged(st, false, |metas|, [], {});
      SecNone();
      if e != Ok { return; }  // a delete of an indexed key always applies, so there is nothing to release
      StagedIsStageable(im, rc, res, st);
      forall i | 0 <= i < |metas| ensures Column(Img(), metas[i].col) == Column(im, metas[i].col) - {st.op.slot} {
        ColumnDelete(im, rc, res, st, metas[i].col);
      }
    }

    lemma QuietRows()
      requires Batch([])
      ensures RowsOk(Img(), rowCount, stagedSlots) && stagedSlots == {}
    {
    }

    lemma KeysInTable()
      requires Batch([])
      ensures index.Keys == RowsByKey(Img()).Keys
    {
      forall k ensures k in index <==> k in RowsByKey(Img()) {
        KeyInTable(Img(), rowCount, stagedSlots, k);
      }
    }

    /** A stray row with a value keeps the index from being exact. */
    lemma GhostEntry(im: Image, st: Staged)
      requires |metas| > 0 && st.op.kind == Update && st.op.key !in im.index && Fits(im, st.op)
      requires Img() == Applied(im, st.op) && SecWith({st.op.slot})
      requires IsValue(CellAt(st.op.rec, metas[0].col))
      ensures !SecOk()
    {
      hide SecExact, Column, EncodeSecValue;
      var col, stray := metas[0].col, {st.op.slot};
      StraysApart(Img(), stagedSlots, stray, col);
      ExactWithout(trees[0], Column(Img(), col), StrayCells(Img(), stray, col));
      assert StrayCells(Img(), stray, col)[st.op.slot] == CellAt(st.op.rec, col);
    }

    // ---- building an index from the rows ----

    /** Walks the primary index and enters every live row; a unique index refuses a second row with a
        value. `walk` is what the primary cursor over the whole key range shows: each live row once. */
    method PopulateSecondaryIndex(meta: SecMeta, walk: seq<nat>) returns (e: Err, tree: map<nat, nat>)
      requires Batch([]) && (forall r :: r in walk <==> r in Column(Img(), meta.col))
      requires forall i, j :: 0 <= i < j < |walk| ==> walk[i] != walk[j]
      ensures e == if meta.unique && !AllDistinct(Column(Img(), meta.col)) then AlreadyExists else Ok
      ensures e == Ok ==> SecExact(tree, Column(Img(), meta.col))
    {
      hide BatchOk, SecExact, AllDistinct, RowsOk, Column;
      tree := map[];
      ghost var all := Column(Img(), meta.col);
      ghost var cells: map<nat, Cell> := map[];
      BuildStart();
      for i := 0 to |walk|
        invariant SecExact(tree, cells) && (meta.unique ==> AllDistinct(cells))
        invariant cells.Keys == set j | 0 <= j < i :: walk[j]
        invariant forall r :: r in cells ==> r in all && cells[r] == all[r]
      {
        var r := walk[i];
        assert r in walk && r !in cells;
        BuildRow(r, meta.col);
        if r < ver.Length && !tomb[r] && ver[r] % 2 == 0 {
          var c := CellAt(rec[r], meta.col);
          RowEnters(tree, cells, r, c);
          var code := EncodeSecValue(c);
          if code.Some? {
            ProbeDecides(tree, cells, c, None);
            if meta.unique && ProbeConflict(tree, code.value, None) {
              NotDistinct(all, cells, c, r);
              return AlreadyExists, tree;
            }
            tree := tree[SecKey(code.value, r) := r];
          }
          if meta.unique { DistinctSet(cells, r, c, None); }
          cells := cells[r := c];
        }
      }
      assert cells == all;
      return Ok, tree;
    }

    lemma BuildStart()
      ensures SecExact(map[], map[]) && AllDistinct(map[])
    {
    }

    lemma BuildRow(r: nat, col: nat)
      requires Batch([]) && r in Column(Img(), col)
      ensures r < ver.Length && !tomb[r] && ver[r] % 2 == 0 && r < TWO63
      ensures Column(Img(), col)[r] == CellAt(rec[r], col)
    {
      assert EntryOk(Img(), rowCount, stagedSlots, rec[r][0].v);
      assert Img().ver[r] % 2 == 0;
    }

    lemma NotDistinct(all: map<nat, Cell>, cells: map<nat, Cell>, c: Cell, r: nat)
      requires Conflict(cells, c, None) && r !in cells && r in all && all[r] == c
      requires forall x :: x in cells ==> x in all && cells[x] == all[x]
      ensures !AllDistinct(all)
    {
      var x :| x in cells && IsValue(cells[x]) && cells[x] == c;
      assert all[x] == all[r];
    }

    // ---- replay ----

    method ReplayUpsert(slot: nat, rowVer: nat, row: Row, refused: bool) returns (e: Err)
      requires Shape() && rowVer >= 1 && |row| > 0 && row[0].Int?
      modifies this, ver, rec, tomb
      ensures Shape() && trees == old(trees) && committed == old(committed)
      ensures e == Ok || e == Corruption || e == OutOfMemory
      ensures e == Corruption <==> slot >= ver.Length || (row[0].v in old(index) && old(index)[row[0].v] != slot)
      ensures e == OutOfMemory <==> slot < ver.Length && row[0].v !in old(index) && refused
      ensures rowCount == if e == Ok && row[0].v !in old(index) && slot + 1 > old(rowCount) then slot + 1
                          else old(rowCount)
      ensures e == Ok ==> (slot < ver.Length &&
                           RefinesReplay(Recovery.ReplayUpsert(old(Img()),
                             Op(Kind.Insert, row[0].v, slot, rowVer, row))))
      ensures slot < ver.Length && e == Corruption ==>
        Recovery.ReplayUpsert(old(Img()), Op(Kind.Insert, row[0].v, slot, rowVer, row)).Failure?
    {
      if slot >= ver.Length { return Corruption; }
      ghost var im, op := Img(), Op(Kind.Insert, row[0].v, slot, rowVer, row);
      var key := row[0].v;
      if key in index {
        if index[key] == slot { return Ok; }
        return Corruption;
      }
      if ver[slot] < rowVer {
        rec[slot] := row;
        tomb[slot] := false;
        ver[slot] := rowVer;
        assert Img() == Image(im.ver[slot := rowVer], im.rec[slot := row], im.tomb[slot := false], im.index);
      }
      if refused { return OutOfMemory; }
      index := index[key := slot];
      if slot + 1 > rowCount { rowCount := slot + 1; }
      return Ok;
    }

    method ReplayDelete(slot: nat, rowVer: nat, key: int) returns (e: Err)
      requires Shape() && rowVer >= 1
      modifies this, ver, tomb
      ensures Shape() && trees == old(trees) && committed == old(committed) && rowCount == old(rowCount)
      ensures e == Ok ==> (slot < ver.Length &&
                           RefinesReplay(Recovery.ReplayDelete(old(Img()), Op(Kind.Delete, key, slot, rowVer, []))))
      ensures e == if slot >= ver.Length || (key in old(index) && old(index)[key] != slot) then Corruption else Ok
      ensures e != Ok && slot < ver.Length ==>
                Recovery.ReplayDelete(old(Img()), Op(Kind.Delete, key, slot, rowVer, [])).Failure?
    {
      if slot >= ver.Length { return Corruption; }
      ghost var im := Img();
      var have := key in index;
      if have && index[key] != slot { return Corruption; }
      if ver[slot] < rowVer {
        tomb[slot] := true;
        ver[slot] := rowVer;
        assert Img() == Image(im.ver[slot := rowVer], im.rec, im.tomb[slot := true], im.index);
      }
      if have { index := index - {key}; }
      assert index == im.index - {key};
      return Ok;
    }

    ghost predicate RefinesReplay(r: Result<Image>)
      reads this, ver, rec, tomb
    {
      r == Success(Img())
    }

    // ---- whole batches ----

    /** What staging compared with the unique indexes. */
    ghost predicate Checked(st: Staged)
      reads `trees
      requires |trees| == |metas|
    {
      st.op.kind != Delete ==> UniqueFree(st.op.rec, if Reserves(st) then None else Some(st.op.slot))
    }

    /** What a request is answered while it is staged, with this many slots left for inserts. */
    ghost function Answer(req: Request, free: nat): Err
      reads `index, `trees
      requires |trees| == |metas|
    {
      var key := KeyOf(req.row);
      if req.kind == Delete then
        if |req.row| == 0 || !req.row[0].Int? then InvalidArgument else if key in index then Ok else NotFound
      else if |req.row| != |nullable| || |req.row| == 0 || !req.row[0].Int? then InvalidArgument
      else if req.kind == Update && key !in index then NotFound
      else if (req.kind == Insert && key in index)
        || !UniqueFree(req.row, if req.kind == Update then Some(index[key]) else None) then AlreadyExists
      else if req.kind == Insert && free == 0 then OutOfMemory
      else if RowOk(req.row, nullable) then Ok else InvalidArgument
    }

    /** The same for the i-th of a batch, when all before it are staged. */
    ghost function AnswerAt(reqs: seq<Request>, i: nat, free: nat): Err
      reads `index, `trees
      requires |trees| == |metas| && i < |reqs|
    {
      Answer(reqs[i], if Inserts(reqs, i) <= free then free - Inserts(reqs, i) else 0)
    }

    /** The first request that is not accepted decides. */
    ghost predicate Verdict(reqs: seq<Request>, free: nat, e: Err)
      reads `index, `trees
      requires |trees| == |metas|
    {
      if e == Ok then forall i :: 0 <= i < |reqs| ==> AnswerAt(reqs, i, free) == Ok
      else exists i :: 0 <= i < |reqs| && AnswerAt(reqs, i, free) == e
             && forall j :: 0 <= j < i ==> AnswerAt(reqs, j, free) == Ok
    }

    /** Stages one request after the ones already staged. */
    method StageOne(req: Request, ghost ops: seq<Staged>) returns (e: Err, st: Staged)
      requires Batch(ops) && AllFresh(Img(), ops)
      modifies `rowCount, `hint, `stagedSlots
      ensures e == Ok ==> Batch(ops + [st]) && AllFresh(Img(), ops + [st]) && Answers(st, req) && Checked(st)
      ensures e == Ok ==> Versioned(Img(), st)
      ensures e != Ok ==> Batch(ops) && AllFresh(Img(), ops)
      ensures e == old(Answer(req, FreeSlots()))
      ensures FreeSlots() + (if e == Ok && req.kind == Insert then 1 else 0) == old(FreeSlots())
    {
      hide BatchOk, AllFresh, Column, UniqueFree, FreeSlots;
      BatchBounds(ops);
      NoneFree();
      st := Staged(Op(Delete, 0, 0, 0, []), false);
      match req.kind {
        case Insert =>
          e, st := StageInsert(req.row, ops);
        case Update =>
          e, st := StageUpdate(req.row, ops);
        case Delete =>
          if |req.row| == 0 || !req.row[0].Int? { return InvalidArgument, st; }
          e, st := StageRemove(req.row[0].v, ops);
      }
    }

    /** Releases everything staged, last first. */
    method ReleaseAll(staged: seq<Staged>)
      requires Batch(staged)
      modifies `stagedSlots, `rowCount, tomb
      ensures Batch([]) && RowsByKey(Img()) == RowsByKey(old(Img()))
    {
      hide BatchOk, RowsByKey, Column;
      var j := |staged|;
      assert staged[..j] == staged;
      while j > 0
        invariant 0 <= j <= |staged| && Batch(staged[..j]) && RowsByKey(Img()) == RowsByKey(old(Img()))
      {
        assert staged[..j] == staged[..j - 1] + [staged[j - 1]];
        ReleaseStaged(staged[j - 1], false, staged[..j - 1]);
        j := j - 1;
      }
    }

    /** Stages the requests in order; on the first refusal everything is released again. */
    method StageAll(reqs: seq<Request>) returns (e: Err, staged: seq<Staged>)
      requires Batch([])
      modifies `rowCount, `hint, `stagedSlots, tomb
      ensures if e == Ok then Batch(staged) && AllFresh(Img(), staged) && Img() == old(Img()) else Batch([])
      ensures e == Ok ==> AllAnswer(staged, reqs) && |trees| == |metas|
      ensures e == Ok ==> forall i :: 0 <= i < |staged| ==> Checked(staged[i]) && Versioned(Img(), staged[i])
      ensures RowsByKey(Img()) == RowsByKey(old(Img()))
      ensures |trees| == |metas| && old(Verdict(reqs, FreeSlots(), e))
    {
      hide BatchOk, RowsByKey, Column, SecExact, AllFresh, Answers, FreeSlots, Answer;
      ghost var free := FreeSlots();
      staged := [];
      NoneFresh();
      for i := 0 to |reqs|
        invariant Batch(staged) && AllFresh(Img(), staged) && |staged| == i && Img() == old(Img())
        invariant forall k :: 0 <= k < i ==> Answers(staged[k], reqs[k])
        invariant forall k :: 0 <= k < i ==> Checked(staged[k]) && Versioned(Img(), staged[k])
        invariant FreeSlots() + Inserts(reqs, i) == free
        invariant forall k :: 0 <= k < i ==> old(AnswerAt(reqs, k, free)) == Ok
      {
        var st;
        e, st := StageOne(reqs[i], staged);
        if e != Ok {
          assert old(AnswerAt(reqs, i, free)) == e;
          ReleaseAll(staged);
          return;
        }
        staged := staged + [st];
      }
      e := Ok;
    }

    /** The condition under which a batch leaves the secondary indexes exact: no update of a key that it has deleted
        before brings a value of an indexed column. */
    ghost predicate NoStrays(reqs: seq<Request>) {
      forall i :: 0 <= i < |metas| ==> NoStrayValue(reqs, metas[i].col)
    }

    /** The condition under which it leaves the unique indexes unique: its own standing rows are distinct. */
    ghost predicate BatchUnique(reqs: seq<Request>) {
      forall i :: 0 <= i < |metas| && metas[i].unique ==> BatchDistinct(reqs, metas[i].col)
    }

    lemma StrayTurn(t: map<int, Row>, im: Image, reserved: set<nat>, staged: seq<Staged>, reqs: seq<Request>, n: nat,
                    stray: set<nat>)
      requires n < |reqs| && AllAnswer(staged, reqs) && SlotsByKey(staged) && Consistent(t, reqs)
      requires RowsOk(im, rowCount, reserved) && StagedOk(im, rowCount, reserved, staged[n])
        && StrayOk(im, reserved, stray)
      requires RowsByKey(im) == StepAll(t, reqs[..n]) && StrayRows(im.rec, staged, reqs, n, stray)
      requires staged[n].op.kind == Insert ==> staged[n].op.key !in im.index
      requires staged[n].op.kind == Delete ==> staged[n].op.key in im.index
      ensures StrayRows(Applied(im, staged[n].op).rec, staged, reqs, n + 1, StrayNow(im, staged[n], stray))
    {
      hide RowsOk, StagedOk, StrayOk, RowsByKey, StepAll, StrayRows, SlotsByKey;
      var st := staged[n];
      assert Answers(st, reqs[n]) && Fits(im, st.op) by { FitsStaged(im, rowCount, reserved, st); }
      StrayKept(im, rowCount, reserved, st, stray);
      if st.op.kind != Insert {
        Meets(t, im, rowCount, reserved, reqs, n);
      } else {
        forall j | 0 <= j < n && !Reserves(staged[j]) ensures staged[j].op.key != st.op.key {
          assert Answers(staged[j], reqs[j]);
        }
      }
      StrayAdvance(im, st, staged, reqs, n, stray);
    }

    lemma FitsStaged(im: Image, rc: nat, reserved: set<nat>, st: Staged)
      requires StagedOk(im, rc, reserved, st)
      ensures Fits(im, st.op)
    {
    }

    /** No page of a tree is refused. */
    ghost predicate Unrefused(refused: nat -> bool, secRefusedAt: nat -> nat, n: nat) {
      forall i :: 0 <= i < n ==> !refused(i) && secRefusedAt(i) >= |metas|
    }

    /** Applies in order; at the first failure the rest is released. `done` is how much was applied. */
    method ApplyAll(staged: seq<Staged>, refused: nat -> bool, secRefusedAt: nat -> nat, ghost reqs: seq<Request>)
      returns (e: Err, ghost done: nat, ghost stray: set<nat>)
      requires Batch(staged) && AllFresh(Img(), staged) && AllAnswer(staged, reqs)
      requires forall i :: 0 <= i < |staged| ==> Versioned(Img(), staged[i])
      modifies this, ver, rec, tomb
      ensures Batch([]) && done <= |reqs| && (e == Ok ==> done == |reqs|)
      ensures RowsByKey(Img()) == StepAll(RowsByKey(old(Img())), reqs[..done])
      ensures old(Counted()) && (e == Ok || metas == []) ==> Counted()
      ensures e == Ok && old(SecOk()) ==> SecWith(stray) && StrayRows(Img().rec, staged, reqs, |reqs|, stray)
      ensures e == Ok ==> Led(old(Img()), Img(), staged, |staged|)
      ensures e == Ok ==> !Repeats(reqs) && forall i :: 0 <= i < |reqs| && reqs[i].kind == Insert ==> !refused(i)
      ensures Unrefused(refused, secRefusedAt, |reqs|) ==> (e == Ok <==> !Repeats(reqs))
      ensures e == Ok || e == OutOfMemory || e == AlreadyExists || e == NotFound
    {
      hide BatchOk, RowsByKey, Column, SecExact, StepAll, StepRow, Shape, Applied, Answers, StrayRows, SecWith, StrayOk,
        Shown, SecOk, RowsOk, StagedOk, SlotsByKey, Consistent, Led, InsertsApart, AllFresh, RepeatAt;
      var applied := 0;
      ghost var t, im0 := RowsByKey(Img()), Img();
      BatchLed(staged);
      stray := {};
      assert staged[0..] == staged && reqs[..0] == [];
      StepAllNone(t);
      SecNone();
      BatchStart(staged, reqs);
      while applied < |staged|
        invariant 0 <= applied <= |staged| && Batch(staged[applied..])
        invariant RowsByKey(Img()) == StepAll(t, reqs[..applied])
        invariant old(Counted()) ==> Counted()
        invariant old(SecOk()) ==> SecWith(stray) && StrayRows(Img().rec, staged, reqs, applied, stray)
        invariant Led(im0, Img(), staged, applied)
        invariant forall i :: 0 <= i < applied ==> !RepeatAt(reqs, i) && (reqs[i].kind == Insert ==> !refused(i))
      {
        ghost var im, rc, res := Img(), rowCount, stagedSlots;
        assert staged[applied..] == [staged[applied]] + staged[applied + 1..];
        FirstStaged(staged[applied], staged[applied + 1..]);
        var published;
        e, published, stray := ApplyOne(staged, applied, refused(applied), secRefusedAt(applied), reqs, t, stray,
          old(SecOk()));
        if e != Ok {
          done := if published then applied + 1 else applied;
          ReleaseRest(staged, applied, published);
          return;
        }
        LedStep(im0, im, rc, res, staged, applied);
        applied := applied + 1;
      }
      assert staged[|staged|..] == [];
      e, done := Ok, |staged|;
    }

    lemma BatchLed(staged: seq<Staged>)
      requires Batch(staged) && AllFresh(Img(), staged)
      requires forall i :: 0 <= i < |staged| ==> Versioned(Img(), staged[i])
      ensures Led(Img(), Img(), staged, 0) && InsertsApart(staged)
    {
      hide BatchOk, AllFresh;
      LedStart(Img(), rowCount, stagedSlots, staged);
      InsertsAreApart(Img(), rowCount, stagedSlots, staged);
    }

    /** One turn of the apply loop. */
    method ApplyOne(staged: seq<Staged>, n: nat, refused: bool, secRefusedAt: nat, ghost reqs: seq<Request>,
                    ghost t: map<int, Row>, ghost was: set<nat>, ghost exact: bool)
      returns (e: Err, published: bool, ghost stray: set<nat>)
      requires n < |reqs| && AllAnswer(staged, reqs) && SlotsByKey(staged) && Consistent(t, reqs) && Batch(staged[n..])
      requires RowsByKey(Img()) == StepAll(t, reqs[..n])
      requires exact ==> SecWith(was) && StrayRows(Img().rec, staged, reqs, n, was)
      modifies this, ver, rec, tomb
      ensures e == Ok ==> published
      ensures e == Ok ==> Fits(old(Img()), staged[n].op) && Img() == Applied(old(Img()), staged[n].op)
      ensures e == Ok ==>
        && (staged[n].op.kind == Insert ==> staged[n].op.key !in old(index))
        && (staged[n].op.kind == Delete ==> staged[n].op.key in old(index))
      ensures e == Ok ==> !RepeatAt(reqs, n) && (reqs[n].kind == Insert ==> !refused)
      ensures e != Ok && secRefusedAt >= |metas| && (reqs[n].kind == Insert ==> !refused) ==> RepeatAt(reqs, n)
      ensures e == Ok || e == OutOfMemory || e == AlreadyExists || e == NotFound
      ensures if published then Batch(staged[n + 1..]) else Batch(staged[n..])
      ensures published && staged[n].op.kind == Insert ==> staged[n].op.slot !in stagedSlots
      ensures RowsByKey(Img()) == StepAll(t, reqs[..if published then n + 1 else n])
      ensures old(Counted()) && (e == Ok || metas == []) ==> Counted()
      ensures exact && e == Ok ==> SecWith(stray) && StrayRows(Img().rec, staged, reqs, n + 1, stray)
    {
      hide BatchOk, RowsByKey, Column, SecExact, StepAll, StepRow, Shape, Applied, StrayRows, StrayOk, Shown,
        RowsOk, StagedOk, SlotsByKey, Consistent, RepeatAt;
      var st := staged[n];
      assert staged[n..] == [st] + staged[n + 1..];
      FirstStaged(st, staged[n + 1..]);
      StepAllNext(t, reqs, n);
      assert Answers(st, reqs[n]);
      SameStep(StepAll(t, reqs[..n]), st, reqs[n]);
      AppliesUnlessRepeat(t, reqs, n);
      KeyInTable(Img(), rowCount, stagedSlots, st.op.key);
      ghost var im, res, ok := Img(), stagedSlots, SecWith(was);
      e, published := ApplyStaged(st, refused, secRefusedAt, staged[n + 1..], was);
      stray := StrayNow(im, st, was);
      if exact && e == Ok {
        StrayTurn(t, im, res, staged, reqs, n, was);
      }
    }

    lemma SameStep(t: map<int, Row>, st: Staged, req: Request)
      requires Answers(st, req)
      ensures StepRows(t, st.op) == StepRow(t, req.kind, KeyOf(req.row), req.row)
    {
    }

    lemma BatchStart(staged: seq<Staged>, reqs: seq<Request>)
      requires Batch(staged) && AllFresh(Img(), staged) && AllAnswer(staged, reqs)
      ensures SlotsByKey(staged) && Consistent(RowsByKey(Img()), reqs) && StrayRows(Img().rec, staged, reqs, 0, {})
    {
      SlotsFromIndex(Img(), rowCount, stagedSlots, staged);
      ConsistentFromIndex(Img(), rowCount, stagedSlots, staged, reqs);
    }

    /** Stage all, log all, apply all. `logged` says whether the write-ahead log took the batch. Whatever
        happens, nothing stays reserved, and the rows are the old ones with a prefix of the batch applied. After a
        success the secondary indexes are exact, and the unique ones unique, exactly when the requests say so. */
    method ExecuteBatch(reqs: seq<Request>, logged: bool, refused: nat -> bool, secRefusedAt: nat -> nat)
      returns (e: Err, ghost done: nat)
      requires Batch([])
      modifies this, ver, rec, tomb
      ensures Batch([])
      ensures old(Counted()) && (e == Ok || metas == []) ==>
        Counted() && rowCount - |Tombs(Img(), rowCount)| == committed
      ensures done <= |reqs| && RowsByKey(Img()) == StepAll(RowsByKey(old(Img())), reqs[..done])
      ensures e == Ok ==> done == |reqs|
      ensures !logged ==> e != Ok && done == 0
      ensures reqs == [] ==> e == InvalidArgument
      ensures e == Ok && old(SecOk()) ==> (SecOk() <==> NoStrays(reqs))
      ensures e == Ok && old(SecOk()) && old(UniqueOk()) ==> (UniqueOk() <==> BatchUnique(reqs))
      ensures e == Ok ==> BatchRun(old(Img()), Img(), reqs)
      ensures reqs != [] && !old(Verdict(reqs, FreeSlots(), Ok)) ==>
        done == 0 && e != Ok && old(Verdict(reqs, FreeSlots(), e))
      ensures reqs != [] && old(Verdict(reqs, FreeSlots(), Ok)) && !logged ==> e == IoError
      ensures e == Ok ==> old(Verdict(reqs, FreeSlots(), Ok)) && !Repeats(reqs)
      ensures reqs != [] && logged && Unrefused(refused, secRefusedAt, |reqs|) ==>
        (old(Verdict(reqs, FreeSlots(), Ok)) ==> (e == Ok <==> !Repeats(reqs)))
    {
      hide BatchOk, RowsByKey, Column, SecExact, StepAll, Tombs, Shape, AllFresh, Checked, StrayRows, SecWith, SecOk,
        UniqueOk, NoStrays, BatchUnique, AllAnswer, Led, Versioned, BatchRun, FreeSlots, Answer,
        Repeats;
      ghost var t := RowsByKey(Img());
      StepAllNone(t);
      assert reqs[..0] == [] && reqs[..|reqs|] == reqs;
      done := 0;
      if reqs == [] {
        QuietCount();
        return InvalidArgument, 0;
      }
      var staged;
      e, staged := StageAll(reqs);
      if e == Ok && !logged {
        ReleaseAll(staged);
        e := IoError;
      }
      if e == Ok {
        ghost var stray, im, t0 := {}, Img(), trees;
        SameSec();
        ghost var exact := SecOk();
        ghost var unique := exact && UniqueOk();
        if unique { BatchFree(staged, reqs); }
        e, done, stray := ApplyAll(staged, refused, secRefusedAt, reqs);
        if e == Ok { LedBatch(im, Img(), staged, reqs); }
        if e == Ok && exact { StraysDecide(staged, reqs, stray); }
        if e == Ok && unique { UniqueIff(t, reqs); }
      }
      QuietCount();
    }

    twostate lemma SameSec()
      requires Img() == old(Img()) && trees == old(trees)
      ensures SecOk() == old(SecOk()) && UniqueOk() == old(UniqueOk())
    {
    }

    /** What staging found free of the unique columns, by key. */
    lemma BatchFree(staged: seq<Staged>, reqs: seq<Request>)
      requires Batch(staged) && AllFresh(Img(), staged) && AllAnswer(staged, reqs) && SecOk() && UniqueOk()
      requires forall i :: 0 <= i < |staged| ==> Checked(staged[i])
      ensures FreeBatch(RowsByKey(Img()), reqs)
    {
      hide BatchOk, RowsByKey, Column, SecExact, AllFresh, RowsOk, StagedOk, ValueFree;
      BatchStart(staged, reqs);
      BatchRowsOk(staged);
      forall m | 0 <= m < |metas| && metas[m].unique
        ensures KeysDistinct(RowsByKey(Img()), metas[m].col)
        ensures forall i :: 0 <= i < |reqs| && reqs[i].kind != Delete ==>
                  RowFree(RowsByKey(Img()), KeyOf(reqs[i].row), reqs[i].row, metas[m].col)
      {
        DistinctByKey(Img(), rowCount, stagedSlots, metas[m].col);
        forall i | 0 <= i < |reqs| && reqs[i].kind != Delete
          ensures RowFree(RowsByKey(Img()), KeyOf(reqs[i].row), reqs[i].row, metas[m].col)
        {
          var st := staged[i];
          assert Answers(st, reqs[i]) && Checked(st);
          var self := if Reserves(st) then None else Some(st.op.slot);
          assert ValueFree(trees[m], metas[m], st.op.rec, self);
          SelfIs(staged, i);
          FreeByKey(Img(), rowCount, stagedSlots, trees[m], metas[m], st.op.key, st.op.rec, self);
        }
      }
    }

    lemma BatchRowsOk(staged: seq<Staged>)
      requires Batch(staged)
      ensures RowsOk(Img(), rowCount, stagedSlots)
    {
    }

    lemma SelfIs(staged: seq<Staged>, i: nat)
      requires Batch(staged) && AllFresh(Img(), staged) && i < |staged|
      ensures if Reserves(staged[i]) then staged[i].op.key !in index
              else staged[i].op.key in index && index[staged[i].op.key] == staged[i].op.slot
    {
      assert StagedOk(Img(), rowCount, stagedSlots, staged[i]);
    }

    /** Unique before the batch, and the batch's rows compared with those rows. */
    ghost predicate FreeBatch(t: map<int, Row>, reqs: seq<Request>) {
      && Consistent(t, reqs)
      && forall m :: 0 <= m < |metas| && metas[m].unique ==>
           && KeysDistinct(t, metas[m].col)
           && forall i :: 0 <= i < |reqs| && reqs[i].kind != Delete ==>
                RowFree(t, KeyOf(reqs[i].row), reqs[i].row, metas[m].col)
    }

    lemma UniqueIff(t: map<int, Row>, reqs: seq<Request>)
      requires Batch([]) && FreeBatch(t, reqs) && RowsByKey(Img()) == StepAll(t, reqs)
      ensures UniqueOk() <==> BatchUnique(reqs)
    {
      hide BatchOk, RowsByKey, Column, StepAll, RowsOk, Consistent, KeysDistinct, AllDistinct, BatchDistinct;
      BatchRowsOk([]);
      forall m | 0 <= m < |metas| && metas[m].unique
        ensures AllDistinct(Column(Img(), metas[m].col)) <==> BatchDistinct(reqs, metas[m].col)
      {
        DistinctByKey(Img(), rowCount, stagedSlots, metas[m].col);
        BatchKeepsUnique(t, reqs, metas[m].col);
      }
    }

    lemma StraysDecide(staged: seq<Staged>, reqs: seq<Request>, stray: set<nat>)
      requires AllAnswer(staged, reqs) && SecWith(stray) && StrayRows(Img().rec, staged, reqs, |reqs|, stray)
      ensures SecOk() <==> NoStrays(reqs)
    {
      hide SecExact, Column, Answers, StrayRows, NoStrayValue, StrayCells, StrayOk, EncodeSecValue;
      var im := Img();
      StrayInRange(im, stagedSlots, stray);
      forall m | 0 <= m < |metas|
        ensures SecExact(trees[m], Column(im, metas[m].col)) <==> NoStrayValue(reqs, metas[m].col)
      {
        var col := metas[m].col;
        StraysApart(im, stagedSlots, stray, col);
        ExactWithout(trees[m], Column(im, col), StrayCells(im, stray, col));
        StrayValues(im, staged, reqs, stray, col);
      }
    }

    /** Releases the operations from the end down to the failed one, which may be published. */
    method ReleaseRest(staged: seq<Staged>, applied: nat, published: bool)
      requires applied < |staged|
      requires if published then Batch(staged[applied + 1..]) else Batch(staged[applied..])
      requires published && staged[applied].op.kind == Insert ==> staged[applied].op.slot !in stagedSlots
      modifies `stagedSlots, `rowCount, tomb
      ensures Batch([]) && RowsByKey(Img()) == RowsByKey(old(Img()))
    {
      hide BatchOk, RowsByKey, Column;
      var from := if published then applied + 1 else applied;
      var j := |staged|;
      assert staged[from..j] == staged[from..];
      while j > from
        invariant from <= j <= |staged| && Batch(staged[from..j]) && RowsByKey(Img()) == RowsByKey(old(Img()))
      {
        assert staged[from..j] == staged[from..j - 1] + [staged[j - 1]];
        ReleaseStaged(staged[j - 1], false, staged[from..j - 1]);
        j := j - 1;
      }
      assert staged[from..from] == [];
      if published {
        NothingStaged();
        ReleaseStaged(staged[applied], true, []);
      }
    }

    lemma NoneFresh()
      requires Batch([])
      ensures AllFresh(Img(), [])
    {
    }

    lemma NothingStaged()
      requires Batch([])
      ensures stagedSlots == {}
    {
    }

    lemma QuietCount()
      requires Batch([])
      ensures rowCount <= |Img().tomb| && rowCount - |Tombs(Img(), rowCount)| == |index|
    {
      hide Tombs;
      NothingStaged();
      Accounting(Img(), rowCount);
    }
  }

  method StageTwins() returns (s: Store, first: Staged, second: Staged)
    ensures s.Batch([first] + [second]) && s.UniqueDeclared(1) && s.metas == [SecMeta(1, true)]
    ensures RowsByKey(s.Img()) == map[] && s.index == map[] && first.op.kind == second.op.kind == Insert
    ensures first.op.key == 1 && first.op.rec == [Int(1), Int(5)]
    ensures second.op.key == 2 && second.op.rec == [Int(2), Int(5)]
    ensures fresh(s) && fresh(s.ver) && fresh(s.rec) && fresh(s.tomb)
  {
    hide BatchOk, Column, RowsByKey, SecExact, EncodeSecValue, AllFresh;
    s := new Store(2, [false, false], [SecMeta(1, true)]);
    s.NoneFresh();
    EmptyRows(s.Img());
    var e;
    e, first := s.StageInsert([Int(1), Int(5)], []);
    assert [] + [first] == [first];
    e, second := s.StageInsert([Int(2), Int(5)], [first]);
    assert s.metas[0] == SecMeta(1, true);
  }

  /** Uniqueness is checked against applied rows only, so one batch may bring a value twice: both inserts
      are staged and applied, and the unique index then has two rows with it. */
  method BatchUniqueExample() returns (s: Store)
    ensures s.Batch([]) && s.UniqueDeclared(1)
    ensures RowsByKey(s.Img()) == map[1 := [Int(1), Int(5)], 2 := [Int(2), Int(5)]]
    ensures !s.UniqueOk()
  {
    hide BatchOk, Column, RowsByKey, SecExact, AllDistinct, Store.SecWith, Applied, Fits;
    var first, second;
    s, first, second := StageTwins();
    var e, published := s.ApplyStaged(first, false, 1, [second], {});
    assert [second] + [] == [second];
    e, published := s.ApplyStaged(second, false, 1, [], {});
    TwoAlike(s, 1, 2);
  }

  method OneRowStore() returns (s: Store)
    ensures s.Batch([]) && s.SecOk() && s.index.Keys == {1} && |s.nullable| == 2 && s.metas == [SecMeta(1, false)]
    ensures RowsByKey(s.Img()) == map[1 := [Int(1), Int(5)]]
    ensures fresh(s) && fresh(s.ver) && fresh(s.rec) && fresh(s.tomb)
  {
    hide BatchOk, Column, RowsByKey, SecExact, EncodeSecValue;
    s := new Store(1, [false, false], [SecMeta(1, false)]);
    EmptyRows(s.Img());
    var e := s.InsertRow([Int(1), Int(5)], false, 1);
    s.KeysInTable();
  }

  method StageBoth(s: Store) returns (first: Staged, second: Staged)
    requires s.Batch([]) && s.index.Keys == {1} && |s.nullable| == 2 && s.metas == [SecMeta(1, false)]
    ensures s.Batch([first] + [second]) && first.op.kind == Delete && second.op.kind == Update
    ensures first.op.key == second.op.key == 1 && second.op.rec == [Int(1), Int(6)]
  {
    hide BatchOk, SecExact, EncodeSecValue, AllFresh;
    var e;
    s.NoneFresh();
    e, first := s.StageRemove(1, []);
    assert [] + [first] == [first];
    e, second := s.StageUpdate([Int(1), Int(6)], [first]);
  }

  /** An update staged behind a delete of the same key succeeds, changes no row, and leaves an entry of the dead
      slot in the secondary index. */
  method DeleteUpdateExample() returns (s: Store, e: Err)
    ensures e == Ok && s.Batch([]) && RowsByKey(s.Img()) == map[] && !s.SecOk()
  {
    hide BatchOk, Column, RowsByKey, SecExact, AllDistinct, Store.SecWith, Applied;
    s := OneRowStore();
    var first, second := StageBoth(s);
    var published;
    s.SecNone();
    e, published := s.ApplyStaged(first, false, 1, [second], {});
    assert [second] + [] == [second];
    ghost var im := s.Img();
    e, published := s.ApplyStaged(second, false, 1, [], {});
    assert {} + {second.op.slot} == {second.op.slot};
    s.GhostEntry(im, second);
  }

  lemma EmptyRows(im: Image)
    requires im.index == map[]
    ensures RowsByKey(im) == map[]
  {
  }

  lemma TwoAlike(s: Store, k: int, l: int)
    requires s.Batch([]) && k != l && k in RowsByKey(s.Img()) && l in RowsByKey(s.Img())
    requires |s.metas| > 0 && s.metas[0] == SecMeta(1, true)
    requires RowsByKey(s.Img())[k] == [Int(k), Int(5)] && RowsByKey(s.Img())[l] == [Int(l), Int(5)]
    ensures !s.UniqueOk()
  {
    var im := s.Img();
    assert EntryOk(im, s.rowCount, s.stagedSlots, k) && EntryOk(im, s.rowCount, s.stagedSlots, l);
    var x, y := im.index[k], im.index[l];
    var cells := Column(im, 1);
    assert x in cells && y in cells && x != y && cells[x] == cells[y] == Int(5);
    assert s.metas[0].unique && !AllDistinct(cells);
  }
}
