/** A batch as recovery's histories have it: staged on one image, applied one operation after the other
    (src/storage/table_store.cpp:607-820, src/engine.cpp:1309-1393). */
module BatchHistory {
  import opened Recovery
  import opened RowBatch
  import opened RowImage

  /** Updates and deletes of one key work on one slot, of different keys on different ones. */
  ghost predicate SlotsByKey(staged: seq<Staged>) {
    forall i, j :: 0 <= i < |staged| && 0 <= j < |staged| && !Reserves(staged[i]) && !Reserves(staged[j]) ==>
      (staged[i].op.slot == staged[j].op.slot <==> staged[i].op.key == staged[j].op.key)
  }

  lemma SlotsFromIndex(im: Image, rowCount: nat, reserved: set<nat>, staged: seq<Staged>)
    requires BatchOk(im, rowCount, reserved, staged) && AllFresh(im, staged)
    ensures SlotsByKey(staged)
  {
    forall i | 0 <= i < |staged| && !Reserves(staged[i])
      ensures staged[i].op.key in im.index && im.index[staged[i].op.key] == staged[i].op.slot
    {
      assert StagedOk(im, rowCount, reserved, staged[i]);
    }
    forall i, j | 0 <= i < |staged| && 0 <= j < |staged| && !Reserves(staged[i]) && !Reserves(staged[j])
      ensures staged[i].op.slot == staged[j].op.slot <==> staged[i].op.key == staged[j].op.key
    {
      assert EntryOk(im, rowCount, reserved, staged[i].op.key) && EntryOk(im, rowCount, reserved, staged[j].op.key);
    }
  }

  /** What staging lets through is what recovery's histories consist of. A version that does not grow belongs to an
      update or delete behind another operation of its batch on the slot. */
  lemma StagedIsStageable(im: Image, rowCount: nat, reserved: set<nat>, st: Staged)
    requires RowsOk(im, rowCount, reserved) && StagedOk(im, rowCount, reserved, st)
    requires Fits(im, st.op) && st.op.ver >= 2 && st.op.ver >= im.ver[st.op.slot]
    requires st.op.kind == Insert ==> st.op.key !in im.index && st.op.ver > im.ver[st.op.slot]
    requires st.op.kind == Update && st.op.key !in im.index ==> st.op.ver == im.ver[st.op.slot]
    requires st.op.kind == Delete ==> st.op.key in im.index
    ensures Steady(im) && Stageable(im, st.op)
  {
    forall k | k in im.index ensures EntryOk(im, rowCount, reserved, k) {
    }
    forall k ensures Reserves(st) || st.op.key !in im.index ==> !At(im, k, st.op.slot) {
    }
  }

  /** Staging gives every operation the version behind the one its slot had then. */
  predicate Versioned(im0: Image, st: Staged) {
    st.op.slot < |im0.ver| && st.op.ver == im0.ver[st.op.slot] + 2
  }

  /** When the operation's turn comes, its slot has the old version, or an operation of the batch has moved it. */
  predicate VersionOk(im0: Image, im: Image, st: Staged)
    requires Versioned(im0, st)
  {
    && |im.ver| == |im0.ver|
    && (im.ver[st.op.slot] == im0.ver[st.op.slot] || (!Reserves(st) && im.ver[st.op.slot] == st.op.ver))
    && (!Reserves(st) && st.op.key !in im.index ==> im.ver[st.op.slot] == st.op.ver)
  }

  function Ops(staged: seq<Staged>): (h: seq<Op>)
    ensures |h| == |staged| && forall i :: 0 <= i < |h| ==> h[i] == staged[i].op
  {
    seq(|staged|, i requires 0 <= i < |staged| => staged[i].op)
  }

  /** The first n staged operations, applied to im0, are a history that leads to im, and the rest can follow. */
  ghost predicate Led(im0: Image, im: Image, staged: seq<Staged>, n: nat) {
    && n <= |staged| && Steady(im0) && (forall i :: 0 <= i < |staged| ==> Versioned(im0, staged[i]))
    && History(im0, Ops(staged[..n])) && AllFit(im0, Ops(staged[..n])) && im == Run(im0, Ops(staged[..n]))
    && forall i {:trigger VersionOk(im0, im, staged[i])} :: n <= i < |staged| ==> VersionOk(im0, im, staged[i])
  }

  /** No other operation works on the slot of an insert. */
  ghost predicate InsertsApart(staged: seq<Staged>) {
    forall i, j :: 0 <= i < |staged| && 0 <= j < |staged| && i != j && Reserves(staged[i]) ==>
      staged[i].op.slot != staged[j].op.slot
  }

  lemma InsertsAreApart(im: Image, rowCount: nat, reserved: set<nat>, staged: seq<Staged>)
    requires BatchOk(im, rowCount, reserved, staged)
    ensures InsertsApart(staged)
  {
    forall i, j | 0 <= i < |staged| && 0 <= j < |staged| && i != j && Reserves(staged[i])
      ensures staged[i].op.slot != staged[j].op.slot
    {
      HolderReserved(im, rowCount, reserved, staged, i);
      HolderReserved(im, rowCount, reserved, staged, j);
      assert PairOk(staged, i, j);
    }
  }

  lemma SteadyRows(im: Image, rowCount: nat, reserved: set<nat>)
    requires RowsOk(im, rowCount, reserved)
    ensures Steady(im)
  {
    forall k | k in im.index ensures EntryOk(im, rowCount, reserved, k) {
    }
  }

  lemma LedStart(im: Image, rowCount: nat, reserved: set<nat>, staged: seq<Staged>)
    requires BatchOk(im, rowCount, reserved, staged) && AllFresh(im, staged)
    requires forall i :: 0 <= i < |staged| ==> Versioned(im, staged[i])
    ensures Led(im, im, staged, 0)
  {
    hide RowsOk;
    SteadyRows(im, rowCount, reserved);
    assert staged[..0] == [] && Ops([]) == [];
  }

  /** An operation follows a history whose inserts are on other slots. */
  lemma {:induction false} HistoryAppend(im: Image, g: seq<Op>, op: Op)
    requires Steady(im) && History(im, g) && AllFit(im, g) && Stageable(Run(im, g), op)
    requires forall i :: 0 <= i < |g| && g[i].kind == Insert ==> g[i].slot != op.slot
    ensures History(im, g + [op]) && AllFit(im, g + [op]) && Run(im, g + [op]) == Applied(Run(im, g), op)
    decreases |g|
  {
    if g == [] {
      assert g + [op] == [op] && [op][1..] == [];
    } else {
      var t := Applied(im, g[0]);
      assert (g + [op])[0] == g[0] && (g + [op])[1..] == g[1..] + [op];
      AppliedSteady(im, g[0]);
      Recovery.RestFits(im, t, g);
      assert forall i :: 0 <= i < |g| - 1 ==> g[1..][i] == g[i + 1] && (g[1..] + [op])[i] == g[i + 1];
      HistoryAppend(t, g[1..], op);
      HistoryFits(im, g + [op]);
    }
  }

  /** Applying the next operation keeps the versions of the ones behind it in step. */
  lemma VersionKept(im0: Image, im: Image, st: Staged, other: Staged)
    requires Fits(im, st.op) && Versioned(im0, st) && Versioned(im0, other)
    requires VersionOk(im0, im, st) && VersionOk(im0, im, other)
    requires Reserves(st) || Reserves(other) ==> st.op.slot != other.op.slot
    requires !Reserves(st) && !Reserves(other) ==> (st.op.slot == other.op.slot <==> st.op.key == other.op.key)
    ensures VersionOk(im0, Applied(im, st.op), other)
  {
  }

  lemma LedStep(im0: Image, im: Image, rowCount: nat, reserved: set<nat>, staged: seq<Staged>, n: nat)
    requires Led(im0, im, staged, n) && n < |staged| && SlotsByKey(staged)
    requires RowsOk(im, rowCount, reserved) && StagedOk(im, rowCount, reserved, staged[n])
    requires staged[n].op.kind == Insert ==> staged[n].op.key !in im.index
    requires staged[n].op.kind == Delete ==> staged[n].op.key in im.index
    requires InsertsApart(staged)
    ensures Fits(im, staged[n].op) && Led(im0, Applied(im, staged[n].op), staged, n + 1)
  {
    hide RowsOk, Steady, History, Run, AllFit, Stageable;
    var st, g := staged[n], Ops(staged[..n]);
    assert VersionOk(im0, im, st) && Fits(im, st.op);
    StagedIsStageable(im, rowCount, reserved, st);
    forall i | 0 <= i < |g| && g[i].kind == Insert ensures g[i].slot != st.op.slot {
      assert Reserves(staged[i]);
    }
    HistoryAppend(im0, g, st.op);
    assert staged[..n + 1] == staged[..n] + [st];
    assert Ops(staged[..n + 1]) == g + [st.op];
    forall i | n + 1 <= i < |staged| ensures VersionOk(im0, Applied(im, st.op), staged[i]) {
      assert VersionOk(im0, im, staged[i]);
      VersionKept(im0, im, st, staged[i]);
    }
  }
}
