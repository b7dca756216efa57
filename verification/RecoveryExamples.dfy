/** Histories that the store can write and that recovery does not bring back (src/storage/table_store.cpp:660-820,
    875-943). */
module RecoveryExamples {
  import opened Errors
  import opened RecoveredTable
  import opened Recovery
  import opened RowImage

  lemma Prepend(im: Image, op: Op, rest: seq<Op>)
    requires Stageable(im, op) && AllFit(Applied(im, op), rest) && History(Applied(im, op), rest)
    requires op.kind == Insert ==> NewerOn(rest, op.slot, op.ver)
    ensures AllFit(im, [op] + rest) && History(im, [op] + rest)
    ensures Run(im, [op] + rest) == Run(Applied(im, op), rest)
  {
    var h := [op] + rest;
    assert h[1..] == rest;
    forall i | 0 <= i < |h| ensures Fits(im, h[i]) {
      if i > 0 { assert Fits(Applied(im, op), rest[i - 1]); }
    }
  }

  lemma RunNone(im: Image)
    requires Shaped(im)
    ensures AllFit(im, []) && History(im, []) && Run(im, []) == im
  {
  }

  lemma ReplayStep(x: Image, op: Op, rest: seq<Op>)
    requires AllFit(x, [op] + rest)
    ensures Fits(x, op)
    ensures ReplayOp(x, op).Success? ==> AllFit(ReplayOp(x, op).value, rest)
    ensures Replay(x, [op] + rest) ==
            if ReplayOp(x, op).Failure? then ReplayOp(x, op) else Replay(ReplayOp(x, op).value, rest)
  {
    var h := [op] + rest;
    assert h[0] == op && h[1..] == rest && Fits(x, h[0]);
    if ReplayOp(x, op).Success? { RestFits(x, ReplayOp(x, op).value, h); }
  }

  /** Whatever the crash left: a log that moves a key from an insert or update to another slot is refused. */
  lemma {:induction false} MoveCorrupts(x: Image, h: seq<Op>, i: nat, j: nat)
    requires AllFit(x, h) && i < j < |h| && h[i].kind != Delete && h[j].key == h[i].key && h[j].slot != h[i].slot
    requires forall n :: i < n < j ==> h[n].key != h[i].key
    ensures !NoMoves(h) && Replay(x, h) == Failure(Corruption)
    decreases i
  {
    if i == 0 {
      FirstMet(h[1..], j - 1);
    } else {
      NoMovesFrom(x, h, i, j);
    }
    SucceedsIff(x, h);
  }

  lemma NoMovesFrom(x: Image, h: seq<Op>, i: nat, j: nat)
    requires AllFit(x, h) && 0 < i < j < |h| && h[i].kind != Delete && h[j].key == h[i].key && h[j].slot != h[i].slot
    requires forall n :: i < n < j ==> h[n].key != h[i].key
    ensures !NoMoves(h)
    decreases i, 0
  {
    RestFits(x, x, h);
    assert h[1..][i - 1] == h[i] && h[1..][j - 1] == h[j];
    forall n | i - 1 < n < j - 1 ensures h[1..][n].key != h[i].key {
      assert h[1..][n] == h[n + 1];
    }
    MoveCorrupts(x, h[1..], i - 1, j - 1);
  }

  lemma {:induction false} FirstMet(h: seq<Op>, j: nat)
    requires j < |h| && forall n :: 0 <= n < j ==> h[n].key != h[j].key
    ensures FirstSlot(h, h[j].key) == Some(h[j].slot)
    decreases j
  {
    if j > 0 {
      assert h[1..][j - 1] == h[j];
      forall n | 0 <= n < j - 1 ensures h[1..][n].key != h[j].key {
        assert h[1..][n] == h[n + 1];
      }
      FirstMet(h[1..], j - 1);
    }
  }

  /** A crash between logging an update and applying it: the replay finds the key published and skips
      the record, so the committed update is gone. */
  lemma LostUpdateExample(a: Row, b: Row)
    requires a != b
    ensures var im := Image([0], [[]], [false], map[]);
      var h := [Op(Insert, 7, 0, 2, a), Op(Update, 7, 0, 4, b)];
      && Steady(im) && History(im, h) && AllFit(im, h)
      && var r := Replay(CrashImage(im, h, Crash(1, 0, [])), h[1..]);
      r.Success? && r.value.rec[0] == a && Run(im, h).rec[0] == b
  {
    var im := Image([0], [[]], [false], map[]);
    var h := [Op(Insert, 7, 0, 2, a), Op(Update, 7, 0, 4, b)];
    assert h[1..] == [h[1]] && h[..1] == [h[0]] && h[1..][1..] == [] && h[..1][1..] == [];
    var one := Applied(im, h[0]);
    assert At(one, 7, 0) && History(one, h[1..]);
    HistoryFits(im, h);
    assert Run(im, h[..1]) == one;
    assert Run(im, h) == Run(one, h[1..]) == Applied(one, h[1]);
    assert ReplayOp(one, h[1]) == Success(one);
  }

  /** A key comes back in another slot, as its own has been given away: even over a fully applied image the replay of
      its first insert reports corruption. */
  lemma MovedKeyExample(a: Row)
    ensures var im := Image([0, 0], [[], []], [false, false], map[]);
      var h := [Op(Insert, 7, 0, 2, a), Op(Delete, 7, 0, 4, []), Op(Insert, 8, 0, 6, a), Op(Insert, 7, 1, 2, a)];
      Steady(im) && History(im, h) && AllFit(im, h) && NoMoves(h) && Replay(Run(im, h), h) == Failure(Corruption)
  {
    hide Run, Replay, History, NoMoves;
    MovedHistory(a);
    var im := Image([0, 0], [[], []], [false, false], map[]);
    var h := [Op(Insert, 7, 0, 2, a), Op(Delete, 7, 0, 4, []), Op(Insert, 8, 0, 6, a), Op(Insert, 7, 1, 2, a)];
    FirstMet(h, 0);
    SucceedsIff(Run(im, h), h);
  }

  lemma MovedHistory(a: Row)
    ensures var im := Image([0, 0], [[], []], [false, false], map[]);
      var h := [Op(Insert, 7, 0, 2, a), Op(Delete, 7, 0, 4, []), Op(Insert, 8, 0, 6, a), Op(Insert, 7, 1, 2, a)];
      && Steady(im) && History(im, h) && AllFit(im, h) && NoMoves(h)
      && AllFit(Run(im, h), h) && Run(im, h).index == map[8 := 0, 7 := 1]
  {
    hide Run, History;
    var im := Image([0, 0], [[], []], [false, false], map[]);
    var o0, o1 := Op(Insert, 7, 0, 2, a), Op(Delete, 7, 0, 4, []);
    var o2, o3 := Op(Insert, 8, 0, 6, a), Op(Insert, 7, 1, 2, a);
    var m1 := Applied(im, o0);
    var m2 := Applied(m1, o1);
    var m3 := Applied(m2, o2);
    assert At(m1, 7, 0) && Free(im, 0) && Free(m2, 0) && Free(m3, 1);
    RunNone(Applied(m3, o3));
    var t1 := [o2] + ([o3] + []);
    Prepend(m3, o3, []);
    Prepend(m2, o2, [o3] + []);
    Prepend(m1, o1, t1);
    Prepend(im, o0, [o1] + t1);
    var h := [o0, o1, o2, o3];
    assert [o0] + ([o1] + t1) == h;
    StaysPut(o0, o1, o2, o3);
  }

  lemma StaysPut(o0: Op, o1: Op, o2: Op, o3: Op)
    requires o0.key == o1.key && o0.slot == o1.slot && o1.kind == Delete && o2.key != o3.key
    ensures NoMoves([o0, o1, o2, o3])
  {
    var h := [o0, o1, o2, o3];
    assert h[1..] == [o1, o2, o3] && h[1..][1..] == [o2, o3] && [o2, o3][1..] == [o3] && [o3][1..] == [];
    assert NoMoves([]) && NoMoves([o3]);
    assert FirstSlot([o3], o2.key) == FirstSlot([], o2.key) == None;
    assert NoMoves([o2, o3]);
  }

  /** A batch deletes a key and then updates it, and the key comes back elsewhere: although every key of the table is
      first met in its slot, and although everything has been applied, replay reports corruption. */
  lemma ReviveCorruptsExample(a: Row, b: Row)
    ensures var im := Image([2, 0], [a, []], [false, false], map[7 := 0]);
      var h := [Op(Delete, 7, 0, 4, []), Op(Update, 7, 0, 4, b), Op(Insert, 8, 0, 6, a), Op(Insert, 7, 1, 2, a),
                Op(Delete, 7, 1, 4, [])];
      && Steady(im) && History(im, h) && AllFit(im, h)
      && HomesMatch(Run(im, h).index, h) && Replay(Run(im, h), h) == Failure(Corruption)
  {
    hide Run, Replay, History, NoMoves, FirstSlot;
    var im := Image([2, 0], [a, []], [false, false], map[7 := 0]);
    var h := [Op(Delete, 7, 0, 4, []), Op(Update, 7, 0, 4, b), Op(Insert, 8, 0, 6, a), Op(Insert, 7, 1, 2, a),
              Op(Delete, 7, 1, 4, [])];
    ReviveHistory(a, b);
    FirstMet(h, 2);
    MoveCorrupts(Run(im, h), h, 1, 3);
  }

  lemma ReviveHistory(a: Row, b: Row)
    ensures var im := Image([2, 0], [a, []], [false, false], map[7 := 0]);
      var h := [Op(Delete, 7, 0, 4, []), Op(Update, 7, 0, 4, b), Op(Insert, 8, 0, 6, a), Op(Insert, 7, 1, 2, a),
                Op(Delete, 7, 1, 4, [])];
      Steady(im) && History(im, h) && AllFit(im, h) && AllFit(Run(im, h), h) && Run(im, h).index == map[8 := 0]
  {
    hide Run, History;
    var im := Image([2, 0], [a, []], [false, false], map[7 := 0]);
    var o0, o1 := Op(Delete, 7, 0, 4, []), Op(Update, 7, 0, 4, b);
    var m1 := Applied(im, o0);
    var m2 := Applied(m1, o1);
    assert At(im, 7, 0) && m1.index == map[];
    assert Free(m1, 0);
    var rest := [Op(Insert, 8, 0, 6, a), Op(Insert, 7, 1, 2, a), Op(Delete, 7, 1, 4, [])];
    ReviveRest(m2, a);
    Prepend(m1, o1, rest);
    Prepend(im, o0, [o1] + rest);
    assert [o0] + ([o1] + rest)
        == [o0, o1, Op(Insert, 8, 0, 6, a), Op(Insert, 7, 1, 2, a), Op(Delete, 7, 1, 4, [])];
  }

  lemma ReviveRest(m: Image, a: Row)
    requires Shaped(m) && m.ver == [4, 0] && m.index == map[]
    ensures var h := [Op(Insert, 8, 0, 6, a), Op(Insert, 7, 1, 2, a), Op(Delete, 7, 1, 4, [])];
      History(m, h) && AllFit(m, h) && Run(m, h).index == map[8 := 0]
  {
    hide Run, History;
    var o2, o3, o4 := Op(Insert, 8, 0, 6, a), Op(Insert, 7, 1, 2, a), Op(Delete, 7, 1, 4, []);
    var m1 := Applied(m, o2);
    var m2 := Applied(m1, o3);
    var m3 := Applied(m2, o4);
    assert At(m2, 7, 1) && Free(m, 0) && Free(m1, 1);
    RunNone(m3);
    Prepend(m2, o4, []);
    Prepend(m1, o3, [o4] + []);
    Prepend(m, o2, [o3] + ([o4] + []));
    assert [o2] + ([o3] + ([o4] + [])) == [o2, o3, o4];
  }

  /** Replaying a batch that deletes a key and then updates it leaves the key in the index, on a slot with a tombstone,
      even when everything has been applied. */
  lemma RevivedKeyExample(a: Row, b: Row)
    ensures var im := Image([2], [a], [false], map[7 := 0]);
      var h := [Op(Delete, 7, 0, 4, []), Op(Update, 7, 0, 4, b)];
      && Steady(im) && History(im, h) && AllFit(im, h) && Run(im, h).index == map[]
      && var r := Replay(Run(im, h), h);
      r.Success? && r.value.index == map[7 := 0] && r.value.tomb == [true]
  {
    var im := Image([2], [a], [false], map[7 := 0]);
    var o0, o1 := Op(Delete, 7, 0, 4, []), Op(Update, 7, 0, 4, b);
    var m1 := Applied(im, o0);
    var m2 := Applied(m1, o1);
    assert At(im, 7, 0) && m1.index == map[];
    assert Free(m1, 0);
    Prepend(m1, o1, []);
    Prepend(im, o0, [o1] + []);
    assert [o0] + ([o1] + []) == [o0, o1];
    HistoryFits(im, [o0, o1]);
    ReplayStep(m2, o0, [o1] + []);
    assert ReplayOp(m2, o0) == Success(m2);
    ReplayStep(m2, o1, []);
  }

  /** A crash between a batch's update of a row and its delete of the same row: replaying the batch leaves no
      tombstone, since the update has given the slot the delete's version already. */
  lemma SameVersionExample(a: Row, b: Row)
    ensures var im := Image([2], [a], [false], map[7 := 0]);
      var h := [Op(Update, 7, 0, 4, b), Op(Delete, 7, 0, 4, [])];
      && Steady(im) && History(im, h) && AllFit(im, h)
      && var r := Replay(CrashImage(im, h, Crash(1, 0, [])), h);
      r.Success? && r.value.tomb == [false] && Run(im, h).tomb == [true]
  {
    var im := Image([2], [a], [false], map[7 := 0]);
    var o0, o1 := Op(Update, 7, 0, 4, b), Op(Delete, 7, 0, 4, []);
    var m1 := Applied(im, o0);
    var m2 := Applied(m1, o1);
    assert At(im, 7, 0) && At(m1, 7, 0);
    Prepend(m1, o1, []);
    Prepend(im, o0, [o1] + []);
    var h := [o0, o1];
    assert [o0] + ([o1] + []) == h && h[..1] == [o0] + [];
    HistoryFits(im, h);
    Prepend(im, o0, []);
    assert CrashImage(im, h, Crash(1, 0, [])) == m1;
    ReplayStep(m1, o0, [o1] + []);
    assert ReplayOp(m1, o0) == Success(m1);
    ReplayStep(m1, o1, []);
  }

  /** An insertion that the index refuses is withdrawn in two writes, the row and then the version. A crash between them
      leaves the version with a blank row, and replay gives the blank row its key. Behind them replay writes the row,
      whether the slot has its tombstone back or not. */
  lemma RefusedInsert(im: Image, op: Op, tomb: bool)
    requires Fits(im, op) && op.kind == Insert && op.key !in im.index && op.rec != []
    ensures var half := Image(im.ver[op.slot := op.ver], im.rec[op.slot := []], im.tomb[op.slot := false], im.index);
      var r := ReplayOp(half, op);
      r.Success? && r.value.index == Applied(im, op).index && r.value.rec[op.slot] == [] != Applied(im, op).rec[op.slot]
    ensures var whole := Image(im.ver[op.slot := 0], im.rec[op.slot := []], im.tomb[op.slot := tomb], im.index);
      ReplayOp(whole, op) == Success(Applied(im, op))
  {
    var s := op.slot;
    assert im.ver[s := 0][s := op.ver] == im.ver[s := op.ver];
    assert im.rec[s := []][s := op.rec] == im.rec[s := op.rec];
    assert im.tomb[s := tomb][s := false] == im.tomb[s := false];
  }
}
