/** Staged batches on plain values (src/storage/table_store.cpp:587-871): what holds between staging,
    applying and releasing. Slots reserved by appended inserts form the top of the used area, in order. */
module RowBatch {
  import opened RowImage

  /** A staged operation with what releasing it needs to know. */
  datatype Staged = Staged(op: Op, reused: bool)

  predicate Reserves(st: Staged) {
    st.op.kind == Insert
  }

  predicate Appends(st: Staged) {
    st.op.kind == Insert && !st.reused
  }

  /** How many slots at the top a list of staged operations holds reserved. */
  function TopSlots(ops: seq<Staged>): nat {
    if ops == [] then 0 else (if Appends(ops[0]) then 1 else 0) + TopSlots(ops[1..])
  }

  // ---- the row invariants, on plain values ----

  /** What the index names is a live row with that key. */
  predicate EntryOk(im: Image, rowCount: nat, reserved: set<nat>, k: int)
    requires k in im.index && |im.ver| == |im.rec| == |im.tomb|
  {
    var r := im.index[k];
    r < rowCount && r < |im.ver| && !im.tomb[r] && r !in reserved && |im.rec[r]| > 0 && im.rec[r][0] == Int(k)
  }

  /** A used slot that is neither a tombstone nor reserved is named by the index. */
  predicate SlotOk(im: Image, reserved: set<nat>, r: nat)
    requires r < |im.ver| == |im.rec| == |im.tomb|
  {
    && im.ver[r] % 2 == 0
    && (!im.tomb[r] && r !in reserved ==>
          |im.rec[r]| > 0 && im.rec[r][0].Int? && im.rec[r][0].v in im.index && im.index[im.rec[r][0].v] == r)
  }

  ghost predicate RowsOk(im: Image, rowCount: nat, reserved: set<nat>) {
    && |im.ver| == |im.rec| == |im.tomb| && rowCount <= |im.ver|
    && (forall r {:trigger im.ver[r]} :: 0 <= r < |im.ver| ==> im.ver[r] % 2 == 0)
    && (forall k {:trigger EntryOk(im, rowCount, reserved, k)} :: k in im.index ==> EntryOk(im, rowCount, reserved, k))
    && (forall r {:trigger SlotOk(im, reserved, r)} :: 0 <= r < rowCount ==> SlotOk(im, reserved, r))
    && (forall r :: r in reserved ==> r < rowCount)
  }

  /** A staged operation that still fits: an insert holds its slot, an update or delete names its row or a tombstone. */
  predicate StagedOk(im: Image, rowCount: nat, reserved: set<nat>, st: Staged) {
    && Fits(im, st.op) && st.op.ver % 2 == 0 && st.op.slot < rowCount
    && (st.op.kind != Delete ==> |st.op.rec| > 0 && st.op.rec[0] == Int(st.op.key))
    && (st.op.kind == Insert <==> st.op.slot in reserved)
    && (st.op.kind != Insert ==>
          if st.op.key in im.index then im.index[st.op.key] == st.op.slot else im.tomb[st.op.slot])
  }

  /** The slots above the rest are exactly the appended ones, in order. */
  predicate TopOk(rowCount: nat, ops: seq<Staged>, i: nat)
    requires i < |ops|
  {
    if Appends(ops[i]) then ops[i].op.slot + TopSlots(ops[i..]) == rowCount
    else ops[i].op.slot + TopSlots(ops) < rowCount
  }

  ghost predicate BatchOk(im: Image, rowCount: nat, reserved: set<nat>, ops: seq<Staged>) {
    && RowsOk(im, rowCount, reserved) && TopSlots(ops) <= rowCount
    && (forall i {:trigger StagedOk(im, rowCount, reserved, ops[i])} :: 0 <= i < |ops| ==>
      StagedOk(im, rowCount, reserved, ops[i]))
    && (forall i {:trigger TopOk(rowCount, ops, i)} :: 0 <= i < |ops| ==> TopOk(rowCount, ops, i))
    && (forall i, j {:trigger PairOk(ops, i, j)} :: 0 <= i < |ops| && 0 <= j < |ops| ==> PairOk(ops, i, j))
    && (forall r :: r in reserved ==> Holder(ops, r))
  }

  /** Some staged insert holds slot r. */
  predicate Holder(ops: seq<Staged>, r: nat) {
    exists i :: 0 <= i < |ops| && Reserves(ops[i]) && ops[i].op.slot == r
  }

  /** Inserts hold different slots, and no insert has the key of an update or delete. */
  predicate PairOk(ops: seq<Staged>, i: nat, j: nat)
    requires i < |ops| && j < |ops|
  {
    && (i != j && Reserves(ops[i]) && Reserves(ops[j]) ==> ops[i].op.slot != ops[j].op.slot)
    && (Reserves(ops[i]) && !Reserves(ops[j]) ==> ops[i].op.key != ops[j].op.key)
  }

  /** While staging, inserts are of absent keys and the rest of present ones. */
  predicate AllFresh(im: Image, ops: seq<Staged>) {
    forall i :: 0 <= i < |ops| ==> (Reserves(ops[i]) <==> ops[i].op.key !in im.index)
  }

  lemma {:induction false} TopSlotsAppend(ops: seq<Staged>, st: Staged)
    ensures TopSlots(ops + [st]) == TopSlots(ops) + if Appends(st) then 1 else 0
  {
    if ops == [] {
      assert ops + [st] == [st] && [st][1..] == [];
    } else {
      assert (ops + [st])[1..] == ops[1..] + [st];
      TopSlotsAppend(ops[1..], st);
    }
  }

  /** The reserved top is fully taken by the appended slots. */
  lemma {:induction false} TopTaken(rowCount: nat, ops: seq<Staged>, r: nat)
    requires forall i :: 0 <= i < |ops| && Appends(ops[i]) ==> ops[i].op.slot + TopSlots(ops[i..]) == rowCount
    requires rowCount - TopSlots(ops) <= r < rowCount
    ensures Holder(ops, r)
  {
    if ops != [] {
      assert ops[0..] == ops;
      if Appends(ops[0]) && ops[0].op.slot == r {
      } else {
        forall i | 0 <= i < |ops| - 1 && Appends(ops[1..][i])
          ensures ops[1..][i].op.slot + TopSlots(ops[1..][i..]) == rowCount
        {
          assert ops[1..][i..] == ops[i + 1..] && ops[1..][i] == ops[i + 1];
        }
        TopTaken(rowCount, ops[1..], r);
        var i :| 0 <= i < |ops| - 1 && Reserves(ops[1..][i]) && ops[1..][i].op.slot == r;
        assert ops[i + 1] == ops[1..][i];
      }
    }
  }

  lemma BelowTop(im: Image, rowCount: nat, reserved: set<nat>, ops: seq<Staged>, r: nat)
    requires BatchOk(im, rowCount, reserved, ops) && r < rowCount && r !in reserved
    ensures r + TopSlots(ops) < rowCount
  {
    forall i | 0 <= i < |ops| && Appends(ops[i]) ensures ops[i].op.slot + TopSlots(ops[i..]) == rowCount {
      assert TopOk(rowCount, ops, i);
    }
    if r + TopSlots(ops) >= rowCount {
      TopTaken(rowCount, ops, r);
      var i :| 0 <= i < |ops| && Reserves(ops[i]) && ops[i].op.slot == r;
      HolderReserved(im, rowCount, reserved, ops, i);
    }
  }

  lemma HolderReserved(im: Image, rowCount: nat, reserved: set<nat>, ops: seq<Staged>, i: nat)
    requires BatchOk(im, rowCount, reserved, ops) && i < |ops|
    ensures Reserves(ops[i]) <==> ops[i].op.slot in reserved
  {
    assert StagedOk(im, rowCount, reserved, ops[i]);
  }

  /** A staged operation stays right when another one is staged behind it. */
  lemma StagedBefore(im: Image, rowCount: nat, reserved: set<nat>, ops: seq<Staged>, st: Staged, i: nat)
    requires BatchOk(im, rowCount, reserved, ops) && AllFresh(im, ops) && i < |ops| && Fits(im, st.op)
    requires Appends(st) ==> st.op.slot == rowCount
    requires Reserves(st) ==> st.op.slot !in reserved && (Appends(st) || im.tomb[st.op.slot])
    ensures (ops + [st])[i] == ops[i]
    ensures StagedOk(im, rowCount + (if Appends(st) then 1 else 0),
                     if Reserves(st) then reserved + {st.op.slot} else reserved, ops[i])
    ensures TopOk(rowCount + (if Appends(st) then 1 else 0), ops + [st], i)
  {
    hide RowsOk, Holder, PairOk, TopSlots;
    assert StagedOk(im, rowCount, reserved, ops[i]) && TopOk(rowCount, ops, i);
    NamedLive(im, rowCount, reserved, ops[i].op.key);
    assert (ops + [st])[i..] == ops[i..] + [st];
    TopSlotsAppend(ops[i..], st);
    TopSlotsAppend(ops, st);
  }

  lemma NamedLive(im: Image, rowCount: nat, reserved: set<nat>, k: int)
    requires RowsOk(im, rowCount, reserved)
    ensures k in im.index ==> EntryOk(im, rowCount, reserved, k)
  {
    if k in im.index { assert EntryOk(im, rowCount, reserved, k); }
  }

  /** The rows do not change when a slot is reserved. */
  lemma ReserveRows(im: Image, rowCount: nat, reserved: set<nat>, rc: nat, s: nat)
    requires RowsOk(im, rowCount, reserved) && s !in reserved && s < |im.ver|
    requires (s == rowCount && rc == rowCount + 1) || (s < rowCount && rc == rowCount && im.tomb[s])
    ensures RowsOk(im, rc, reserved + {s})
  {
    forall k | k in im.index ensures EntryOk(im, rc, reserved + {s}, k) { assert EntryOk(im, rowCount, reserved, k); }
    forall r | 0 <= r < rc ensures SlotOk(im, reserved + {s}, r) {
      if r < rowCount { assert SlotOk(im, reserved, r); }
    }
  }

  /** Staging an insertion into a new slot at the top. */
  lemma StageAtTop(im: Image, rowCount: nat, reserved: set<nat>, ops: seq<Staged>, st: Staged)
    requires BatchOk(im, rowCount, reserved, ops) && AllFresh(im, ops)
    requires Appends(st) && Fits(im, st.op) && st.op.slot == rowCount && st.op.ver % 2 == 0
    requires |st.op.rec| > 0 && st.op.rec[0] == Int(st.op.key) && st.op.key !in im.index
    ensures BatchOk(im, rowCount + 1, reserved + {rowCount}, ops + [st]) && AllFresh(im, ops + [st])
  {
    hide RowsOk, Holder, PairOk, EntryOk, SlotOk, TopSlots, StagedOk, TopOk;
    var ops', res' := ops + [st], reserved + {rowCount};
    TopSlotsAppend(ops, st);
    TopNotReserved(im, rowCount, reserved);
    var rc: nat := rowCount + 1;
    ReserveRows(im, rowCount, reserved, rc, rowCount);
    forall i | 0 <= i < |ops'| ensures StagedOk(im, rc, res', ops'[i]) && TopOk(rc, ops', i) {
      if i < |ops| {
        StagedBefore(im, rowCount, reserved, ops, st, i);
      } else {
        StagedLast(im, rowCount, reserved, ops, st);
      }
    }
    PairsAppend(im, rowCount, reserved, ops, st);
    HoldersAppend(ops, st);
    assert BatchOk(im, rc, res', ops');
  }

  lemma StagedLast(im: Image, rowCount: nat, reserved: set<nat>, ops: seq<Staged>, st: Staged)
    requires Appends(st) && Fits(im, st.op) && st.op.slot == rowCount && st.op.ver % 2 == 0
    requires |st.op.rec| > 0 && st.op.rec[0] == Int(st.op.key)
    ensures (ops + [st])[|ops|] == st
    ensures StagedOk(im, rowCount + 1, reserved + {rowCount}, st) && TopOk(rowCount + 1, ops + [st], |ops|)
  {
    assert (ops + [st])[|ops|..] == [st] && [st][0] == st && [st][1..] == [];
    assert TopSlots([st]) == 1;
  }

  lemma TopNotReserved(im: Image, rowCount: nat, reserved: set<nat>)
    requires RowsOk(im, rowCount, reserved)
    ensures rowCount !in reserved
  {
  }

  /** Staging an insertion into a tombstoned slot. */
  lemma StageReused(im: Image, rowCount: nat, reserved: set<nat>, ops: seq<Staged>, st: Staged)
    requires BatchOk(im, rowCount, reserved, ops) && AllFresh(im, ops)
    requires Reserves(st) && st.reused && Fits(im, st.op) && st.op.ver % 2 == 0
    requires st.op.slot < rowCount && st.op.slot !in reserved && im.tomb[st.op.slot]
    requires |st.op.rec| > 0 && st.op.rec[0] == Int(st.op.key) && st.op.key !in im.index
    ensures BatchOk(im, rowCount, reserved + {st.op.slot}, ops + [st]) && AllFresh(im, ops + [st])
  {
    hide RowsOk, Holder, PairOk, EntryOk, SlotOk, TopSlots;
    var ops', res' := ops + [st], reserved + {st.op.slot};
    BelowTop(im, rowCount, reserved, ops, st.op.slot);
    TopSlotsAppend(ops, st);
    ReserveRows(im, rowCount, reserved, rowCount, st.op.slot);
    forall i | 0 <= i < |ops'| ensures StagedOk(im, rowCount, res', ops'[i]) && TopOk(rowCount, ops', i) {
      if i < |ops| {
        StagedBefore(im, rowCount, reserved, ops, st, i);
      }
    }
    PairsAppend(im, rowCount, reserved, ops, st);
    HoldersAppend(ops, st);
  }

  /** Staging an update or a delete of a live row. */
  lemma StageOnRow(im: Image, rowCount: nat, reserved: set<nat>, ops: seq<Staged>, st: Staged)
    requires BatchOk(im, rowCount, reserved, ops) && AllFresh(im, ops)
    requires !Reserves(st) && Fits(im, st.op) && st.op.ver % 2 == 0
    requires st.op.key in im.index && im.index[st.op.key] == st.op.slot
    requires st.op.kind == Update ==> |st.op.rec| > 0 && st.op.rec[0] == Int(st.op.key)
    ensures BatchOk(im, rowCount, reserved, ops + [st]) && AllFresh(im, ops + [st])
  {
    hide RowsOk, Holder, PairOk, SlotOk, TopSlots;
    var ops' := ops + [st];
    NamedLive(im, rowCount, reserved, st.op.key);
    BelowTop(im, rowCount, reserved, ops, st.op.slot);
    TopSlotsAppend(ops, st);
    forall i | 0 <= i < |ops'| ensures StagedOk(im, rowCount, reserved, ops'[i]) && TopOk(rowCount, ops', i) {
      if i < |ops| {
        StagedBefore(im, rowCount, reserved, ops, st, i);
      }
    }
    PairsAppend(im, rowCount, reserved, ops, st);
    HoldersAppend(ops, st);
  }

  lemma PairsAppend(im: Image, rowCount: nat, reserved: set<nat>, ops: seq<Staged>, st: Staged)
    requires BatchOk(im, rowCount, reserved, ops) && AllFresh(im, ops)
    requires Reserves(st) ==> st.op.slot !in reserved
    requires Reserves(st) <==> st.op.key !in im.index
    ensures forall i, j {:trigger PairOk(ops + [st], i, j)} :: 0 <= i <= |ops| && 0 <= j <= |ops| ==>
      PairOk(ops + [st], i, j)
  {
    forall i, j | 0 <= i <= |ops| && 0 <= j <= |ops| ensures PairOk(ops + [st], i, j) {
      if i < |ops| { HolderReserved(im, rowCount, reserved, ops, i); }
      if j < |ops| { HolderReserved(im, rowCount, reserved, ops, j); }
      if i < |ops| && j < |ops| { assert PairOk(ops, i, j); }
    }
  }

  lemma HoldersAppend(ops: seq<Staged>, st: Staged)
    ensures forall r :: Holder(ops, r) ==> Holder(ops + [st], r)
    ensures Reserves(st) ==> Holder(ops + [st], st.op.slot)
  {
    forall r | Holder(ops, r) ensures Holder(ops + [st], r) {
      var i :| 0 <= i < |ops| && Reserves(ops[i]) && ops[i].op.slot == r;
      assert (ops + [st])[i] == ops[i];
    }
    assert (ops + [st])[|ops|] == st;
  }

  // ---- applying the first staged operation ----

  lemma {:induction false} TopSlotsTail(ops: seq<Staged>, i: nat)
    requires 0 < i < |ops|
    ensures ops[1..][i - 1..] == ops[i..] && ops[1..][i - 1] == ops[i]
  {
  }

  lemma ApplyFirst(im: Image, rowCount: nat, reserved: set<nat>, ops: seq<Staged>)
    requires BatchOk(im, rowCount, reserved, ops) && ops != []
    requires Reserves(ops[0]) ==> ops[0].op.key !in im.index
    ensures Fits(im, ops[0].op)
    ensures BatchOk(Applied(im, ops[0].op), rowCount, reserved - {ops[0].op.slot}, ops[1..])
  {
    var st, rest := ops[0], ops[1..];
    assert StagedOk(im, rowCount, reserved, st) && TopOk(rowCount, ops, 0);
    var t, res' := Applied(im, st.op), reserved - {st.op.slot};
    forall k | k in t.index ensures EntryOk(t, rowCount, res', k) {
      if k in im.index { assert EntryOk(im, rowCount, reserved, k); }
      if st.op.key in im.index { assert EntryOk(im, rowCount, reserved, st.op.key); }
    }
    forall r | 0 <= r < rowCount ensures SlotOk(t, res', r) {
      assert SlotOk(im, reserved, r);
      if st.op.key in im.index { assert EntryOk(im, rowCount, reserved, st.op.key); }
    }
    forall i | 0 <= i < |rest| ensures StagedOk(t, rowCount, res', rest[i]) && TopOk(rowCount, rest, i) {
      RestFits(im, rowCount, reserved, ops, i + 1);
    }
    forall i, j | 0 <= i < |rest| && 0 <= j < |rest| ensures PairOk(rest, i, j) {
      assert PairOk(ops, i + 1, j + 1);
    }
    forall r | r in res' ensures Holder(rest, r) {
      var i :| 0 <= i < |ops| && Reserves(ops[i]) && ops[i].op.slot == r;
      assert rest[i - 1] == ops[i];
    }
  }

  lemma RestFits(im: Image, rowCount: nat, reserved: set<nat>, ops: seq<Staged>, i: nat)
    requires BatchOk(im, rowCount, reserved, ops) && 0 < i < |ops|
    requires Reserves(ops[0]) ==> ops[0].op.key !in im.index
    ensures Fits(im, ops[0].op) && ops[1..][i - 1] == ops[i]
    ensures StagedOk(Applied(im, ops[0].op), rowCount, reserved - {ops[0].op.slot}, ops[i])
    ensures TopOk(rowCount, ops[1..], i - 1)
  {
    var st := ops[0];
    assert StagedOk(im, rowCount, reserved, st) && TopOk(rowCount, ops, 0) && PairOk(ops, 0, i) && PairOk(ops, i, 0);
    assert StagedOk(im, rowCount, reserved, ops[i]) && TopOk(rowCount, ops, i);
    TopSlotsTail(ops, i);
    if st.op.key in im.index { assert EntryOk(im, rowCount, reserved, st.op.key); }
    if ops[i].op.key in im.index { assert EntryOk(im, rowCount, reserved, ops[i].op.key); }
  }

  /** What a failed index insertion leaves: the slot is blank, visible and still reserved. */
  function Blanked(im: Image, s: nat): Image
    requires s < |im.ver| == |im.rec| == |im.tomb|
  {
    Image(im.ver[s := 0], im.rec[s := []], im.tomb[s := false], im.index)
  }

  lemma BlankFirst(im: Image, rowCount: nat, reserved: set<nat>, ops: seq<Staged>)
    requires BatchOk(im, rowCount, reserved, ops) && ops != [] && Reserves(ops[0])
    ensures Fits(im, ops[0].op) && BatchOk(Blanked(im, ops[0].op.slot), rowCount, reserved, ops)
  {
    var s := ops[0].op.slot;
    assert StagedOk(im, rowCount, reserved, ops[0]);
    var t := Blanked(im, s);
    forall k | k in t.index ensures EntryOk(t, rowCount, reserved, k) { assert EntryOk(im, rowCount, reserved, k); }
    forall r | 0 <= r < rowCount ensures SlotOk(t, reserved, r) { assert SlotOk(im, reserved, r); }
    forall i | 0 <= i < |ops| ensures StagedOk(t, rowCount, reserved, ops[i]) {
      assert StagedOk(im, rowCount, reserved, ops[i]);
    }
  }

  // ---- releasing the last staged operation ----

  function ReleasedTomb(im: Image, st: Staged): Image
    requires st.op.slot < |im.tomb|
  {
    if Reserves(st) && st.reused then SetTomb(im, st.op.slot, true) else im
  }

  /** What the last staged operation is to the top of the slots. */
  lemma LastFacts(im: Image, rowCount: nat, reserved: set<nat>, ops: seq<Staged>)
    requires BatchOk(im, rowCount, reserved, ops) && ops != []
    ensures var st := ops[|ops| - 1];
      && Fits(im, st.op) && StagedOk(im, rowCount, reserved, st)
      && (Appends(st) ==> st.op.slot + 1 == rowCount)
      && TopSlots(ops) == TopSlots(ops[..|ops| - 1]) + if Appends(st) then 1 else 0
  {
    var n := |ops| - 1;
    assert ops == ops[..n] + [ops[n]] && ops[n..] == [ops[n]] && ops[n..][1..] == [];
    assert StagedOk(im, rowCount, reserved, ops[n]) && TopOk(rowCount, ops, n);
    TopSlotsAppend(ops[..n], ops[n]);
  }

  lemma ReleaseRows(im: Image, rowCount: nat, reserved: set<nat>, ops: seq<Staged>)
    requires BatchOk(im, rowCount, reserved, ops) && ops != []
    ensures var st := ops[|ops| - 1];
      && Fits(im, st.op) && (Appends(st) ==> st.op.slot + 1 == rowCount)
      && RowsOk(ReleasedTomb(im, st), if Appends(st) then rowCount - 1 else rowCount,
                if Reserves(st) then reserved - {st.op.slot} else reserved)
  {
    hide TopSlots, StagedOk, TopOk, PairOk, Holder;
    LastFacts(im, rowCount, reserved, ops);
    var st := ops[|ops| - 1];
    var t := ReleasedTomb(im, st);
    var rc := if Appends(st) then rowCount - 1 else rowCount;
    var res' := if Reserves(st) then reserved - {st.op.slot} else reserved;
    HolderReserved(im, rowCount, reserved, ops, |ops| - 1);
    forall k | k in t.index ensures EntryOk(t, rc, res', k) { assert EntryOk(im, rowCount, reserved, k); }
    forall r | 0 <= r < rc ensures SlotOk(t, res', r) { assert SlotOk(im, reserved, r); }
  }

  lemma ReleaseOne(im: Image, rowCount: nat, reserved: set<nat>, ops: seq<Staged>, i: nat)
    requires BatchOk(im, rowCount, reserved, ops) && ops != [] && i < |ops| - 1
    ensures var st := ops[|ops| - 1];
      var rc := if Appends(st) then rowCount - 1 else rowCount;
      && Fits(im, st.op) && rc >= 0 && ops[..|ops| - 1][i] == ops[i]
      && StagedOk(ReleasedTomb(im, st), rc, if Reserves(st) then reserved - {st.op.slot} else reserved, ops[i])
      && TopOk(rc, ops[..|ops| - 1], i)
  {
    hide RowsOk, Holder;
    LastFacts(im, rowCount, reserved, ops);
    var n := |ops| - 1;
    var st, front := ops[n], ops[..n];
    assert StagedOk(im, rowCount, reserved, ops[i]) && TopOk(rowCount, ops, i) && PairOk(ops, i, n);
    assert ops[i..] == front[i..] + [st];
    TopSlotsAppend(front[i..], st);
    TopSlotsOne(front, i);
  }

  lemma ReleaseLast(im: Image, rowCount: nat, reserved: set<nat>, ops: seq<Staged>)
    requires BatchOk(im, rowCount, reserved, ops) && ops != []
    ensures var st := ops[|ops| - 1];
      && Fits(im, st.op) && (Appends(st) ==> rowCount > 0 && st.op.slot + 1 == rowCount)
      && BatchOk(ReleasedTomb(im, st), if Appends(st) then rowCount - 1 else rowCount,
                 if Reserves(st) then reserved - {st.op.slot} else reserved, ops[..|ops| - 1])
  {
    hide TopSlots, StagedOk, TopOk, RowsOk;
    LastFacts(im, rowCount, reserved, ops);
    ReleaseRows(im, rowCount, reserved, ops);
    var n := |ops| - 1;
    var st, front := ops[n], ops[..n];
    var t := ReleasedTomb(im, st);
    var rc := if Appends(st) then rowCount - 1 else rowCount;
    var res' := if Reserves(st) then reserved - {st.op.slot} else reserved;
    forall i | 0 <= i < n ensures StagedOk(t, rc, res', front[i]) && TopOk(rc, front, i) {
      ReleaseOne(im, rowCount, reserved, ops, i);
    }
    forall i, j | 0 <= i < n && 0 <= j < n ensures PairOk(front, i, j) { assert PairOk(ops, i, j); }
    forall r | r in res' ensures Holder(front, r) {
      assert Holder(ops, r);
      var i :| 0 <= i < |ops| && Reserves(ops[i]) && ops[i].op.slot == r;
      assert front[i] == ops[i];
    }
  }

  lemma {:induction false} TopSlotsOne(ops: seq<Staged>, i: nat)
    requires i < |ops|
    ensures Appends(ops[i]) ==> TopSlots(ops[i..]) >= 1
  {
    assert ops[i..][0] == ops[i];
  }

  // ---- accounting ----

  ghost function Tombs(im: Image, rowCount: nat): set<nat>
    requires rowCount <= |im.tomb|
  {
    set r | 0 <= r < rowCount && im.tomb[r]
  }

  ghost function UpTo(n: nat): (s: set<nat>)
    ensures |s| == n && forall r: nat :: r in s <==> r < n
  {
    if n == 0 then {} else UpTo(n - 1) + {n - 1}
  }

  lemma {:induction false} SameSize(m: map<int, nat>, s: set<nat>)
    requires forall k, l :: k in m && l in m && m[k] == m[l] ==> k == l
    requires forall r :: r in s <==> exists k :: k in m && m[k] == r
    ensures |s| == |m|
  {
    if r :| r in s {
      var k :| k in m && m[k] == r;
      forall x ensures x in s - {r} <==> exists l :: l in m - {k} && (m - {k})[l] == x {
        if x in s - {r} {
          var l :| l in m && m[l] == x;
          assert l in m - {k};
        }
      }
      SameSize(m - {k}, s - {r});
      assert |m - {k}| == |m| - 1;
    } else {
      assert forall k :: k in m ==> m[k] in s;
      assert m == map[];
    }
  }

  /** With nothing staged, a used slot that is no tombstone is named by exactly one index entry. */
  lemma LiveNamed(im: Image, rowCount: nat, r: nat)
    requires RowsOk(im, rowCount, {}) && rowCount <= |im.tomb|
    ensures r < rowCount && !im.tomb[r] <==> exists k :: k in im.index && im.index[k] == r
  {
    if r < rowCount && !im.tomb[r] {
      assert SlotOk(im, {}, r);
    }
    if k :| k in im.index && im.index[k] == r {
      assert EntryOk(im, rowCount, {}, k);
    }
  }

  lemma NamedOnce(im: Image, rowCount: nat, k: int, l: int)
    requires RowsOk(im, rowCount, {}) && k in im.index && l in im.index && im.index[k] == im.index[l]
    ensures k == l
  {
    assert EntryOk(im, rowCount, {}, k) && EntryOk(im, rowCount, {}, l);
  }

  /** With nothing staged, the used slots are the tombstones and one slot per index entry. */
  lemma Accounting(im: Image, rowCount: nat)
    requires RowsOk(im, rowCount, {})
    ensures rowCount - |Tombs(im, rowCount)| == |im.index|
  {
    hide EntryOk, SlotOk;
    var all, dead := UpTo(rowCount), Tombs(im, rowCount);
    var live := all - dead;
    forall k, l | k in im.index && l in im.index && im.index[k] == im.index[l] ensures k == l {
      NamedOnce(im, rowCount, k, l);
    }
    forall r ensures r in live <==> exists k :: k in im.index && im.index[k] == r {
      if r >= 0 { LiveNamed(im, rowCount, r); }
    }
    SameSize(im.index, live);
    assert all == live + dead;
  }
}
