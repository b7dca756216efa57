/** What recovery leaves of a table: a crash at any single write, then the replay of the log from a checkpoint
    (src/storage/table_store.cpp:660-820, 875-943). */
module RecoveredTable {
  import opened Errors
  import opened Recovery
  import opened RowImage

  // ---- one slot ----

  predicate Touches(h: seq<Op>, s: nat) {
    exists i :: 0 <= i < |h| && h[i].slot == s
  }

  predicate SameRow(a: Image, b: Image, s: nat)
    requires Shaped(a) && Shaped(b) && s < |a.ver| == |b.ver|
  {
    a.ver[s] == b.ver[s] && a.rec[s] == b.rec[s] && a.tomb[s] == b.tomb[s]
  }

  /** As far as anyone can tell: the record of a slot without a key does not matter. */
  ghost predicate Match(a: Image, b: Image, s: nat)
    requires Shaped(a) && Shaped(b) && s < |a.ver| == |b.ver|
  {
    a.ver[s] == b.ver[s] && a.tomb[s] == b.tomb[s] && (Free(b, s) || a.rec[s] == b.rec[s])
  }

  /** The slot shows what the insert or update brings. */
  predicate Shows(x: Image, op: Op)
    requires Fits(x, op)
  {
    x.ver[op.slot] == op.ver && x.rec[op.slot] == op.rec && !x.tomb[op.slot]
  }

  /** Replay finds the record's key in the index when it comes to the record: a record of the key has left it there,
      or the crash has and no record came before. */
  predicate Met(x: Image, h: seq<Op>, i: nat)
    requires i < |h|
  {
    var before := LastRec(h[..i], h[i].key);
    if before == None then h[i].key in x.index else before.value.kind != Delete
  }

  /** The record does not reach its slot: an insert or update is skipped for its key's sake while the slot shows
      another row, a delete sets no tombstone where the slot shows its version already. */
  predicate LostRow(x: Image, op: Op, met: bool)
    requires Fits(x, op)
  {
    match op.kind
    case Insert => met && !Shows(x, op)
    case Update => !Shows(x, op)
    case Delete => x.ver[op.slot] == op.ver && !x.tomb[op.slot]
  }

  /** The last record of its slot. */
  predicate EndsSlot(h: seq<Op>, i: nat)
    requires i < |h|
  {
    !Touches(h[i + 1..], h[i].slot)
  }

  predicate LostAt(x: Image, h: seq<Op>, i: nat)
    requires AllFit(x, h)
  {
    i < |h| && EndsSlot(h, i) && LostRow(x, h[i], Met(x, h, i))
  }

  /** Some slot's last record is lost. */
  ghost predicate LosesRow(x: Image, h: seq<Op>)
    requires AllFit(x, h)
  {
    exists i: nat :: LostAt(x, h, i)
  }

  lemma TouchesTail(h: seq<Op>, s: nat)
    requires h != []
    ensures Touches(h, s) <==> h[0].slot == s || Touches(h[1..], s)
  {
    var g := h[1..];
    assert forall i :: 0 <= i < |g| ==> g[i] == h[i + 1];
    if Touches(h, s) && h[0].slot != s {
      var i :| 0 <= i < |h| && h[i].slot == s;
      assert g[i - 1].slot == s;
    }
  }

  lemma {:induction false} LastTouch(h: seq<Op>, s: nat) returns (i: nat)
    requires Touches(h, s)
    ensures i < |h| && h[i].slot == s && EndsSlot(h, i)
  {
    TouchesTail(h, s);
    if Touches(h[1..], s) {
      var j := LastTouch(h[1..], s);
      i := j + 1;
      assert h[1..][j] == h[i] && h[1..][j + 1..] == h[i + 1..];
    } else {
      i := 0;
    }
  }

  // ---- replay beside the history, one slot at a time ----

  lemma AtStep(t: Image, op: Op, s: nat, k: int)
    requires Stageable(t, op) && Steady(t)
    ensures At(Applied(t, op), k, s) <==>
      if s != op.slot then At(t, k, s)
      else op.kind != Delete && k == op.key && (op.kind == Insert || At(t, k, s))
  {
    if op.kind != Insert && op.key in t.index { assert At(t, op.key, op.slot); }
    if s == op.slot && At(t, k, s) { assert !Free(t, s); }
  }

  lemma FreeStep(t: Image, op: Op, s: nat)
    requires Stageable(t, op) && Steady(t)
    ensures s != op.slot ==> (Free(Applied(t, op), s) <==> Free(t, s))
    ensures s == op.slot && op.kind == Delete ==> Free(Applied(t, op), s)
    ensures s == op.slot && op.kind == Update ==> (Free(Applied(t, op), s) <==> Free(t, s))
    ensures s == op.slot && op.kind == Insert ==> !Free(Applied(t, op), s)
  {
    var t' := Applied(t, op);
    forall k ensures At(t', k, s) <==>
      if s != op.slot then At(t, k, s) else op.kind != Delete && k == op.key && (op.kind == Insert || At(t, k, s))
    {
      AtStep(t, op, s, k);
    }
    if s == op.slot && op.kind == Insert { assert At(t', op.key, s); }
    if s == op.slot && op.kind == Update && !Free(t, s) {
      var k :| At(t, k, s);
      assert k == op.key;
      assert At(t', k, s);
    }
    if s != op.slot && !Free(t, s) {
      var k :| At(t, k, s);
      assert At(t', k, s);
    }
  }

  /** Replay has a key at the slot that the history has not. */
  ghost predicate Extra(r: Image, t: Image, s: nat) {
    exists k :: At(r, k, s) && !At(t, k, s)
  }

  lemma ExtraStays(r: Image, t: Image, op: Op, s: nat)
    requires Steady(t) && Stageable(t, op) && Fits(r, op) && ReplayOp(r, op).Success? && Extra(r, t, s)
    requires s == op.slot ==> At(t, op.key, s)
    ensures Extra(ReplayOp(r, op).value, Applied(t, op), s)
  {
    var k :| At(r, k, s) && !At(t, k, s);
    AtStep(t, op, s, k);
    assert At(ReplayOp(r, op).value, k, s);
  }

  ghost predicate Knows(r: Image, t: Image) {
    forall k :: k in t.index ==> k in r.index
  }

  /** No record of the slot is older than what b shows there, and an insert of that age is what b shows. */
  predicate Base(b: Image, h: seq<Op>, s: nat)
    requires Shaped(b) && s < |b.ver|
  {
    forall i :: 0 <= i < |h| && h[i].slot == s ==>
      h[i].ver >= b.ver[s] && (h[i].kind == Insert && h[i].ver == b.ver[s] ==> b.rec[s] == h[i].rec && !b.tomb[s])
  }

  /** Replay has not written the slot yet, or it has, and is where the history is or behind it. */
  ghost predicate Tracks(r: Image, t: Image, b: Image, h: seq<Op>, s: nat)
    requires Shaped(r) && Shaped(t) && Shaped(b) && s < |r.ver| == |t.ver| == |b.ver|
  {
    || (SameRow(r, b, s) && Base(b, h, s))
    || Wrote(r, t, b, h, s)
  }

  ghost predicate Wrote(r: Image, t: Image, b: Image, h: seq<Op>, s: nat)
    requires Shaped(r) && Shaped(t) && Shaped(b) && s < |r.ver| == |t.ver| == |b.ver|
  {
    && b.ver[s] < r.ver[s] <= t.ver[s]
    && (r.ver[s] == t.ver[s] ==>
          Extra(r, t, s) || (Match(r, t, s) && (Free(t, s) || NewerOn(h, s, t.ver[s]))))
  }

  predicate Sized(r: Image, t: Image, b: Image, s: nat) {
    Shaped(r) && Shaped(t) && Shaped(b) && s < |r.ver| == |t.ver| == |b.ver|
  }

  lemma BaseTail(b: Image, h: seq<Op>, s: nat)
    requires h != [] && Shaped(b) && s < |b.ver| && Base(b, h, s)
    ensures Base(b, h[1..], s)
  {
    assert forall i :: 0 <= i < |h| - 1 ==> h[1..][i] == h[i + 1];
  }

  lemma TracksElsewhere(r: Image, t: Image, b: Image, h: seq<Op>, s: nat)
    requires Sized(r, t, b, s) && Steady(t) && h != [] && Stageable(t, h[0]) && Fits(r, h[0])
    requires ReplayOp(r, h[0]).Success? && Tracks(r, t, b, h, s) && s != h[0].slot
    ensures Tracks(ReplayOp(r, h[0]).value, Applied(t, h[0]), b, h[1..], s)
  {
    var op, r', t' := h[0], ReplayOp(r, h[0]).value, Applied(t, h[0]);
    FreeStep(t, op, s);
    if SameRow(r, b, s) && Base(b, h, s) {
      BaseTail(b, h, s);
    } else if r.ver[s] == t.ver[s] {
      if Extra(r, t, s) { ExtraStays(r, t, op, s); }
      if NewerOn(h, s, t.ver[s]) { NewerTail(h, s, t.ver[s]); }
    }
  }

  lemma TracksHere(r: Image, t: Image, b: Image, h: seq<Op>, s: nat)
    requires Sized(r, t, b, s) && Steady(t) && h != [] && Stageable(t, h[0]) && Fits(r, h[0]) && Knows(r, t)
    requires ReplayOp(r, h[0]).Success? && Tracks(r, t, b, h, s) && s == h[0].slot
    requires h[0].kind == Insert ==> NewerOn(h[1..], s, h[0].ver)
    ensures Tracks(ReplayOp(r, h[0]).value, Applied(t, h[0]), b, h[1..], s)
  {
    var op, r', t' := h[0], ReplayOp(r, h[0]).value, Applied(t, h[0]);
    FreeStep(t, op, s);
    if SameRow(r, b, s) && Base(b, h, s) {
      BaseTail(b, h, s);
    }
    if op.kind == Update && op.key !in t.index {
      assert At(r', op.key, s) && !At(t', op.key, s);
    } else if op.kind != Insert {
      assert At(t, op.key, s);
      if r.ver[s] == t.ver[s] && Extra(r, t, s) { ExtraStays(r, t, op, s); }
    }
  }

  lemma TracksStep(r: Image, t: Image, b: Image, h: seq<Op>, s: nat)
    requires Sized(r, t, b, s) && Steady(t) && h != [] && History(t, h) && Fits(r, h[0]) && Knows(r, t)
    requires ReplayOp(r, h[0]).Success? && Tracks(r, t, b, h, s)
    ensures var r', t' := ReplayOp(r, h[0]).value, Applied(t, h[0]);
      Sized(r', t', b, s) && Steady(t') && Knows(r', t') && Tracks(r', t', b, h[1..], s)
  {
    AppliedSteady(t, h[0]);
    if s == h[0].slot { TracksHere(r, t, b, h, s); } else { TracksElsewhere(r, t, b, h, s); }
  }

  /** What the last record of the slot leaves, unless it revives a key. */
  lemma LastStep(r: Image, t: Image, b: Image, h: seq<Op>, s: nat)
    requires Sized(r, t, b, s) && Steady(t) && h != [] && Stageable(t, h[0]) && Fits(r, h[0]) && Knows(r, t)
    requires ReplayOp(r, h[0]).Success? && Tracks(r, t, b, h, s) && s == h[0].slot
    requires h[0].kind == Update ==> h[0].key in t.index
    ensures var r', t' := ReplayOp(r, h[0]).value, Applied(t, h[0]);
      Extra(r', t', s) || (Match(r', t', s) <==> !LostRow(b, h[0], h[0].key in r.index))
  {
    var op, r', t' := h[0], ReplayOp(r, h[0]).value, Applied(t, h[0]);
    FreeStep(t, op, s);
    if op.kind != Insert {
      assert At(t, op.key, s);
      if r.ver[s] == t.ver[s] && Extra(r, t, s) { ExtraStays(r, t, op, s); }
    }
  }

  /** Records of other slots leave the slot alone, and the extra key with it. */
  lemma {:induction false} TailKeeps(r: Image, t: Image, h: seq<Op>, s: nat)
    requires Steady(t) && History(t, h) && AllFit(t, h) && AllFit(r, h) && s < |r.ver| == |t.ver|
    requires Replay(r, h).Success? && !Touches(h, s)
    ensures var r', t' := Replay(r, h).value, Run(t, h);
      && SameRow(r', r, s) && SameRow(t', t, s) && (Free(t', s) <==> Free(t, s))
      && (Extra(r, t, s) ==> Extra(r', t', s))
    decreases |h|
  {
    if h != [] {
      var r1, t1 := ReplayOp(r, h[0]).value, Applied(t, h[0]);
      TouchesTail(h, s);
      AppliedSteady(t, h[0]);
      FreeStep(t, h[0], s);
      RestFits(r, r1, h);
      RestFits(t, t1, h);
      if Extra(r, t, s) { ExtraStays(r, t, h[0], s); }
      TailKeeps(r1, t1, h[1..], s);
    }
  }

  lemma {:induction false} TracksTo(r: Image, t: Image, b: Image, h: seq<Op>, s: nat, i: nat)
    requires Sized(r, t, b, s) && Steady(t) && History(t, h) && AllFit(t, h) && AllFit(r, h) && Knows(r, t)
    requires Replay(r, h).Success? && Tracks(r, t, b, h, s) && i < |h| && h[i].slot == s && EndsSlot(h, i)
    requires h[i].kind == Update ==> AllFit(t, h[..i]) && h[i].key in Run(t, h[..i]).index
    ensures AllFit(r, h[..i]) && Replay(r, h[..i]).Success?
    ensures var r', t' := Replay(r, h).value, Run(t, h);
      Extra(r', t', s) || (Match(r', t', s) <==> !LostRow(b, h[i], h[i].key in Replay(r, h[..i]).value.index))
    decreases i
  {
    hide Match, Extra, Tracks, Free, Steady, LostRow, Stageable, Knows;
    var r1, t1 := ReplayOp(r, h[0]).value, Applied(t, h[0]);
    RestFits(r, r1, h);
    RestFits(t, t1, h);
    if i == 0 {
      assert h[..0] == [];
      AppliedSteady(t, h[0]);
      LastStep(r, t, b, h, s);
      TailKeeps(r1, t1, h[1..], s);
      MatchSame(r1, t1, Replay(r1, h[1..]).value, Run(t1, h[1..]), s);
    } else {
      TracksStep(r, t, b, h, s);
      assert h[1..][i - 1] == h[i] && h[1..][i..] == h[i + 1..] && h[..i][1..] == h[1..][..i - 1];
      TracksTo(r1, t1, b, h[1..], s, i - 1);
    }
  }

  lemma MatchSame(r: Image, t: Image, r': Image, t': Image, s: nat)
    requires Sized(r, t, r', s) && Sized(r', t', t, s) && SameRow(r', r, s) && SameRow(t', t, s)
    requires Free(t', s) <==> Free(t, s)
    ensures Match(r', t', s) <==> Match(r, t, s)
  {
  }

  // ---- the records that a crash image has applied already ----

  /** Records no newer than what the slot shows move only index entries. */
  lemma {:induction false} StaysFrozen(r: Image, t: Image, h: seq<Op>, s: nat)
    requires History(t, h) && AllFit(t, h) && AllFit(r, h) && s < |r.ver| == |t.ver|
    requires Run(t, h).ver[s] <= r.ver[s] && Replay(r, h).Success?
    ensures SameRow(Replay(r, h).value, r, s)
    decreases |h|
  {
    if h != [] {
      var r1, t1 := ReplayOp(r, h[0]).value, Applied(t, h[0]);
      RestFits(r, r1, h);
      RestFits(t, t1, h);
      VersionsGrow(t1, h[1..], s);
      StaysFrozen(r1, t1, h[1..], s);
    }
  }

  lemma {:induction false} VersionBound(r: Image, t: Image, h: seq<Op>, s: nat)
    requires History(t, h) && AllFit(t, h) && AllFit(r, h) && s < |r.ver| == |t.ver|
    requires Replay(r, h).Success?
    ensures Replay(r, h).value.ver[s] <= r.ver[s] || Replay(r, h).value.ver[s] <= Run(t, h).ver[s]
    decreases |h|
  {
    if h != [] {
      var r1, t1 := ReplayOp(r, h[0]).value, Applied(t, h[0]);
      RestFits(r, r1, h);
      RestFits(t, t1, h);
      VersionsGrow(t1, h[1..], s);
      VersionBound(r1, t1, h[1..], s);
    }
  }

  /** A key that the history ends with is one that replay ends with, if it was there. */
  lemma {:induction false} KnowsKey(r: Image, t: Image, h: seq<Op>, k: int)
    requires AllFit(t, h) && AllFit(r, h) && Replay(r, h).Success?
    requires k in t.index ==> k in r.index
    ensures k in Run(t, h).index ==> k in Replay(r, h).value.index
    decreases |h|
  {
    if h != [] {
      var r1, t1 := ReplayOp(r, h[0]).value, Applied(t, h[0]);
      RestFits(r, r1, h);
      RestFits(t, t1, h);
      KnowsKey(r1, t1, h[1..], k);
    }
  }

  /** While the version stands still a slot gets no key. */
  lemma {:induction false} KeyWasThere(t: Image, h: seq<Op>, k: int, s: nat)
    requires Steady(t) && History(t, h) && AllFit(t, h) && s < |t.ver|
    requires At(Run(t, h), k, s) && Run(t, h).ver[s] == t.ver[s]
    ensures At(t, k, s)
    decreases |h|
  {
    if h != [] {
      var t1 := Applied(t, h[0]);
      RestFits(t, t1, h);
      AppliedSteady(t, h[0]);
      VersionsGrow(t1, h[1..], s);
      KeyWasThere(t1, h[1..], k, s);
      AtStep(t, h[0], s, k);
    }
  }

  /** A slot caught in an update or delete under a version that its batch has brought it to before: replay skips the
      earlier updates, since it finds their key in the index. */
  lemma {:induction false} StaysCaught(r: Image, t: Image, h: seq<Op>, u: seq<Op>, k: int)
    requires Steady(t) && History(t, h + u) && AllFit(t, h) && AllFit(r, h) && Replay(r, h).Success? && u != []
    requires u[0].slot < |r.ver| == |t.ver| && At(Run(t, h), k, u[0].slot)
    requires Run(t, h).ver[u[0].slot] <= u[0].ver <= r.ver[u[0].slot] + 1 && (k in t.index ==> k in r.index)
    ensures SameRow(Replay(r, h).value, r, u[0].slot)
    decreases |h|
  {
    if h != [] {
      var r1, t1 := ReplayOp(r, h[0]).value, Applied(t, h[0]);
      assert (h + u)[0] == h[0] && (h + u)[1..] == h[1..] + u;
      RestFits(r, r1, h);
      RestFits(t, t1, h);
      AppliedSteady(t, h[0]);
      CaughtSkips(r, t, h, u, k);
      StaysCaught(r1, t1, h[1..], u, k);
    }
  }

  lemma CaughtSkips(r: Image, t: Image, h: seq<Op>, u: seq<Op>, k: int)
    requires Steady(t) && h != [] && u != [] && Stageable(t, h[0]) && History(Applied(t, h[0]), h[1..] + u)
    requires h[0].kind == Insert ==> NewerOn(h[1..] + u, h[0].slot, h[0].ver)
    requires AllFit(t, h) && AllFit(r, h) && ReplayOp(r, h[0]).Success? && AllFit(Applied(t, h[0]), h[1..])
    requires u[0].slot < |r.ver| == |t.ver| && At(Run(Applied(t, h[0]), h[1..]), k, u[0].slot)
    requires Run(Applied(t, h[0]), h[1..]).ver[u[0].slot] <= u[0].ver <= r.ver[u[0].slot] + 1
    requires k in t.index ==> k in r.index
    ensures SameRow(ReplayOp(r, h[0]).value, r, u[0].slot)
  {
    hide Steady, History, AllFit, Run;
    var op, t1, s := h[0], Applied(t, h[0]), u[0].slot;
    AppliedSteady(t, op);
    HistorySplit(t1, h[1..], u);
    VersionsGrow(t1, h[1..], s);
    FitsAt(r, h, 0);
    if op.slot == s && op.ver > r.ver[s] {
      assert (h[1..] + u)[|h| - 1] == u[0];
      assert op.kind != Insert;
      KeyWasThere(t1, h[1..], k, s);
      AtStep(t, op, s, k);
    }
  }

  /** What follows on a slot is no older than the slot, and inserts are newer. */
  lemma {:induction false} LaterRecord(m: Image, u: seq<Op>, i: nat)
    requires History(m, u) && AllFit(m, u) && i < |u|
    ensures u[i].slot < |m.ver| && u[i].ver >= m.ver[u[i].slot] && u[i].ver >= 2
    ensures u[i].kind == Insert ==> u[i].ver > m.ver[u[i].slot]
    decreases i
  {
    if i > 0 {
      RestFits(m, Applied(m, u[0]), u);
      LaterRecord(Applied(m, u[0]), u[1..], i - 1);
    }
  }

  lemma LaterThanFirst(m: Image, u: seq<Op>, i: nat)
    requires History(m, u) && AllFit(m, u) && 0 < i < |u| && u[i].slot == u[0].slot
    ensures u[i].ver >= u[0].ver && (u[i].kind == Insert || u[0].kind == Insert ==> u[i].ver > u[0].ver)
  {
    RestFits(m, Applied(m, u[0]), u);
    assert u[1..][i - 1] == u[i];
    LaterRecord(Applied(m, u[0]), u[1..], i - 1);
  }

  /** The update of a key that its batch has deleted. */
  ghost predicate Gone(m: Image, u: seq<Op>, i: nat)
    requires i < |u| && AllFit(m, u[..i])
  {
    u[i].kind == Update && u[i].key !in Run(m, u[..i]).index
  }

  lemma {:induction false} StrayOnly(m: Image, u: seq<Op>, i: nat)
    requires Steady(m) && History(m, u) && AllFit(m, u) && i < |u| && Free(m, u[i].slot)
    requires u[i].ver == m.ver[u[i].slot]
    ensures AllFit(m, u[..i]) && Gone(m, u, i)
    decreases i
  {
    if i > 0 {
      var op, m1 := u[0], Applied(m, u[0]);
      RestFits(m, m1, u);
      AppliedSteady(m, op);
      FreeStep(m, op, u[i].slot);
      assert u[1..][i - 1] == u[i] && u[..i][1..] == u[1..][..i - 1];
      if op.slot == u[i].slot { LaterThanFirst(m, u, i); }
      StrayOnly(m1, u[1..], i - 1);
    }
  }

  /** The update of a deleted key leaves the key in the replayed index, if nothing follows on its slot. */
  lemma GoneRevives(x: Image, t: Image, h: seq<Op>, i: nat)
    requires Steady(t) && History(t, h) && AllFit(t, h) && AllFit(x, h) && |x.ver| == |t.ver| && Replay(x, h).Success?
    requires i < |h| && EndsSlot(h, i) && AllFit(t, h[..i]) && Gone(t, h, i)
    ensures Extra(Replay(x, h).value, Run(t, h), h[i].slot)
  {
    hide Run, Replay, History, Steady, Extra, AllFit, Touches;
    var a, c := h[..i], h[i..];
    assert h == a + c && c[0] == h[i] && c[1..] == h[i + 1..];
    HistorySplit(t, a, c);
    ReplaySplit(x, a, c);
    StrayHead(Replay(x, a).value, Run(t, a), c);
  }

  lemma StrayHead(r: Image, m: Image, c: seq<Op>)
    requires Steady(m) && History(m, c) && AllFit(m, c) && AllFit(r, c) && |r.ver| == |m.ver| && Replay(r, c).Success?
    requires c != [] && c[0].kind == Update && c[0].key !in m.index && !Touches(c[1..], c[0].slot)
    ensures Extra(Replay(r, c).value, Run(m, c), c[0].slot)
  {
    hide Steady, Touches, Stageable;
    var r1, m1 := ReplayOp(r, c[0]).value, Applied(m, c[0]);
    RestFits(r, r1, c);
    RestFits(m, m1, c);
    AppliedSteady(m, c[0]);
    assert At(r1, c[0].key, c[0].slot) && !At(m1, c[0].key, c[0].slot);
    TailKeeps(r1, m1, c[1..], c[0].slot);
  }

  // ---- where a crash leaves a slot ----

  /** What an operation stopped before its last write leaves. */
  lemma AfterShape(t: Image, op: Op, w: nat, torn: Row)
    requires Fits(t, op) && Shaped(t) && 0 < w < Writes(op.kind)
    ensures var c := After(t, op, w, torn); var s := op.slot;
      && Shaped(c) && |c.ver| == |t.ver| && c.index == t.index
      && (forall x: nat :: x < |t.ver| && x != s ==> SameRow(c, t, x))
      && (op.kind == Insert && w < 5 ==> c.ver[s] == 1)
      && (op.kind == Insert && w == 5 ==> c.ver[s] == op.ver && c.rec[s] == op.rec && !c.tomb[s])
      && (op.kind == Update ==> c.ver[s] == op.ver - 1)
      && (op.kind == Delete && w < 3 ==> c.ver[s] == op.ver - 1)
      && (op.kind == Delete && w == 3 ==> c.ver[s] == op.ver && c.tomb[s])
  {
  }

  /** The image when the operation k[0] has been stopped after w of its writes. */
  function Caught(t: Image, k: seq<Op>, w: nat, torn: Row): (r: Image)
    requires AllFit(t, k)
    ensures |r.ver| == |r.rec| == |r.tomb| == |t.ver|
  {
    if k == [] then t else
      assert Fits(t, k[0]);
      After(t, k[0], w, torn)
  }

  predicate Started(k: seq<Op>, w: nat) {
    k != [] && 0 < w < Writes(k[0].kind)
  }

  /** Every later record of the slot is newer than what a shows there, or revives a key. */
  ghost predicate Unseen(a: Image, m: Image, u: seq<Op>, s: nat)
    requires Shaped(a) && s < |a.ver| && AllFit(m, u)
  {
    forall i :: 0 <= i < |u| && u[i].slot == s ==> u[i].ver > a.ver[s] || (AllFit(m, u[..i]) && Gone(m, u, i))
  }

  /** What the slot shows when replay has come through the applied records: what the crash left, or something that
      the later records are newer than. */
  ghost predicate Begins(r: Image, x: Image, m: Image, u: seq<Op>, s: nat) {
    && Sized(r, x, m, s) && AllFit(m, u) && Base(r, u, s)
    && (SameRow(r, x, s) || (Unseen(r, m, u, s) && Unseen(x, m, u, s)))
  }

  lemma BystanderBegins(t: Image, g: seq<Op>, u: seq<Op>, x: Image, s: nat)
    requires Steady(t) && History(t, g) && AllFit(t, g) && AllFit(x, g) && s < |t.ver| == |x.ver|
    requires Shaped(x) && SameRow(x, Run(t, g), s) && Replay(x, g).Success?
    requires History(Run(t, g), u) && AllFit(Run(t, g), u)
    ensures Begins(Replay(x, g).value, x, Run(t, g), u, s)
  {
    StaysFrozen(x, t, g, s);
    forall i | 0 <= i < |u| && u[i].slot == s
      ensures u[i].ver >= Run(t, g).ver[s] && (u[i].kind == Insert ==> u[i].ver > Run(t, g).ver[s])
    {
      LaterRecord(Run(t, g), u, i);
    }
  }

  /** The slot of the interrupted operation. */
  lemma VictimBegins(t: Image, g: seq<Op>, u: seq<Op>, w: nat, torn: Row)
    requires Steady(t) && History(t, g + u) && AllFit(t, g) && History(t, g) && Steady(Run(t, g))
    requires History(Run(t, g), u) && AllFit(Run(t, g), u) && Started(u, w)
    requires AllFit(Caught(Run(t, g), u, w, torn), g) && Replay(Caught(Run(t, g), u, w, torn), g).Success?
    ensures var x := Caught(Run(t, g), u, w, torn);
      Begins(Replay(x, g).value, x, Run(t, g), u, u[0].slot)
  {
    hide Run, Replay, History, Steady, After, Gone;
    var m, op, s := Run(t, g), u[0], u[0].slot;
    var x := Caught(m, u, w, torn);
    assert Fits(m, op);
    AfterShape(m, op, w, torn);
    var r := Replay(x, g).value;
    HistoryHead(m, u);
    VersionBound(x, t, g, s);
    forall i | 0 <= i < |u| && u[i].slot == s
      ensures u[i].ver >= op.ver && (i > 0 && (u[i].kind == Insert || op.kind == Insert) ==> u[i].ver > op.ver)
    {
      if i > 0 { LaterThanFirst(m, u, i); }
    }
    if m.ver[s] <= x.ver[s] {
      StaysFrozen(x, t, g, s);
    } else if op.kind != Insert && At(m, op.key, s) {
      StaysCaught(x, t, g, u, op.key);
    } else if op.kind == Update {
      forall i | 0 <= i < |u| && u[i].slot == s && u[i].ver == op.ver ensures AllFit(m, u[..i]) && Gone(m, u, i) {
        StrayOnly(m, u, i);
      }
    }
  }

  lemma HistoryHead(m: Image, k: seq<Op>)
    requires History(m, k) && k != []
    ensures Stageable(m, k[0])
  {
  }

  lemma CaughtElsewhere(m: Image, k: seq<Op>, w: nat, torn: Row, s: nat)
    requires AllFit(m, k) && s < |m.ver| && (w == 0 || (Started(k, w) && s != k[0].slot))
    ensures var x := Caught(m, k, w, torn); x.index == m.index && SameRow(x, m, s)
  {
    if w > 0 { AfterShape(m, k[0], w, torn); }
  }

  lemma CaughtIndex(m: Image, k: seq<Op>, w: nat, torn: Row)
    requires AllFit(m, k) && (w == 0 || Started(k, w))
    ensures Caught(m, k, w, torn).index == m.index
  {
    if w > 0 { AfterShape(m, k[0], w, torn); }
  }

  // ---- one slot through the whole recovery ----

  ghost predicate LostSlot(x: Image, h: seq<Op>, s: nat)
    requires AllFit(x, h)
  {
    exists i: nat :: LostAt(x, h, i) && h[i].slot == s
  }

  lemma LaterTouches(h: seq<Op>, i: nat, j: nat)
    requires i < j < |h| && h[i].slot == h[j].slot
    ensures !EndsSlot(h, i)
  {
    assert h[i + 1..][j - i - 1] == h[j];
  }

  lemma OnlyLast(h: seq<Op>, i: nat, j: nat)
    requires i < |h| && j < |h| && h[i].slot == h[j].slot && EndsSlot(h, i) && EndsSlot(h, j)
    ensures i == j
  {
    if i < j { LaterTouches(h, i, j); }
    if j < i { LaterTouches(h, j, i); }
  }

  lemma MetIs(x: Image, h: seq<Op>, i: nat)
    requires i < |h| && AllFit(x, h[..i]) && Replay(x, h[..i]).Success?
    ensures Met(x, h, i) <==> h[i].key in Replay(x, h[..i]).value.index
  {
    ReplayEntry(x, h[..i], h[i].key);
  }

  lemma SameLoss(r: Image, x: Image, m: Image, u: seq<Op>, i: nat, met: bool)
    requires i < |u| && AllFit(m, u) && AllFit(m, u[..i]) && Fits(r, u[i]) && !Gone(m, u, i)
    requires Begins(r, x, m, u, u[i].slot)
    ensures Fits(x, u[i]) && (LostRow(r, u[i], met) <==> LostRow(x, u[i], met))
  {
  }

  lemma {:induction false} RunKeeps(t: Image, h: seq<Op>, s: nat)
    requires AllFit(t, h) && s < |t.ver| && !Touches(h, s)
    ensures SameRow(Run(t, h), t, s)
    decreases |h|
  {
    if h != [] {
      TouchesTail(h, s);
      RestFits(t, Applied(t, h[0]), h);
      RunKeeps(Applied(t, h[0]), h[1..], s);
    }
  }

  /** The last record of a slot that has been applied is what the slot shows. */
  lemma RowLeft(t: Image, g: seq<Op>, i: nat)
    requires Steady(t) && History(t, g) && AllFit(t, g) && i < |g| && EndsSlot(g, i)
    requires AllFit(t, g[..i]) && !Gone(t, g, i)
    ensures Fits(Run(t, g), g[i])
    ensures if g[i].kind == Delete then Run(t, g).tomb[g[i].slot] else Shows(Run(t, g), g[i])
  {
    hide Steady, Touches;
    var a, c := g[..i], g[i..];
    assert g == a + c && c[0] == g[i] && c[1..] == g[i + 1..];
    HistorySplit(t, a, c);
    var m := Run(t, a);
    RestFits(m, Applied(m, c[0]), c);
    RunKeeps(Applied(m, c[0]), c[1..], g[i].slot);
    if c[0].kind == Update { UpdatedSlot(m, c[0]); }
  }

  lemma UpdatedSlot(m: Image, op: Op)
    requires Steady(m) && Stageable(m, op) && op.kind == Update && op.key in m.index
    ensures !m.tomb[op.slot]
  {
    assert At(m, op.key, op.slot);
  }

  /** A slot that only applied records work on. */
  lemma AppliedSlot(t: Image, g: seq<Op>, u: seq<Op>, x: Image, s: nat)
    requires Steady(t) && History(t, g + u) && AllFit(t, g + u) && AllFit(t, g) && AllFit(Run(t, g), u)
    requires History(t, g) && Steady(Run(t, g)) && History(Run(t, g), u) && Run(t, g + u) == Run(Run(t, g), u)
    requires Shaped(x) && s < |x.ver| == |t.ver| && SameRow(x, Run(t, g), s) && !Touches(u, s)
    requires AllFit(x, g + u) && Replay(x, g + u).Success? && Replay(x, g + u).value.index == Run(t, g + u).index
    ensures Match(Replay(x, g + u).value, Run(t, g + u), s) && !LostSlot(x, g + u, s)
  {
    hide Run, Replay, History, Steady, AllFit, Touches, Gone, LostRow;
    ReplaySplit(x, g, u);
    StaysFrozen(x, t, g, s);
    TailKeeps(Replay(x, g).value, Run(t, g), u, s);
    forall i: nat | i < |g + u| && (g + u)[i].slot == s && EndsSlot(g + u, i) ensures !LostAt(x, g + u, i) {
      FitsAt(t, g + u, i);
      AppliedRecord(t, g, u, x, i);
    }
  }

  lemma PendingTouches(g: seq<Op>, u: seq<Op>, i: nat)
    requires |g| <= i < |g + u|
    ensures Touches(u, (g + u)[i].slot)
  {
    assert u[i - |g|] == (g + u)[i];
  }

  lemma AppliedRecord(t: Image, g: seq<Op>, u: seq<Op>, x: Image, i: nat)
    requires Steady(t) && History(t, g + u) && AllFit(t, g + u) && AllFit(t, g) && History(t, g)
    requires i < |g + u| && EndsSlot(g + u, i) && !Touches(u, (g + u)[i].slot) && Fits(t, (g + u)[i])
    requires Shaped(x) && |x.ver| == |t.ver| && SameRow(x, Run(t, g), (g + u)[i].slot)
    requires AllFit(x, g + u) && Replay(x, g + u).Success? && Replay(x, g + u).value.index == Run(t, g + u).index
    ensures !LostAt(x, g + u, i)
  {
    hide Run, Replay, History, Steady, AllFit, Gone;
    if i >= |g| { PendingTouches(g, u, i); }
    assert (g + u)[..i] == g[..i] && (g + u)[i] == g[i] && g == g[..i] + g[i..];
    HistorySplit(t, g[..i], g[i..]);
    if Gone(t, g + u, i) {
      GoneRevives(x, t, g + u, i);
      assert false;
    } else {
      assert Gone(t, g, i) == Gone(t, g + u, i) by { GoneSame(t, g, u, i); }
      EndsPart(g, u, i);
      RowLeft(t, g, i);
    }
  }

  lemma GoneSame(t: Image, g: seq<Op>, u: seq<Op>, i: nat)
    requires i < |g| && AllFit(t, g[..i])
    ensures AllFit(t, (g + u)[..i]) && Gone(t, g, i) == Gone(t, g + u, i)
  {
    assert (g + u)[..i] == g[..i];
  }

  lemma EndsPart(g: seq<Op>, u: seq<Op>, i: nat)
    requires i < |g| && EndsSlot(g + u, i)
    ensures EndsSlot(g, i)
  {
    var a, b := g[i + 1..], (g + u)[i + 1..];
    assert b == a + u;
    assert forall j :: 0 <= j < |a| ==> b[j] == a[j];
  }

  /** A slot with records that are not applied. */
  lemma PendingSlot(t: Image, g: seq<Op>, u: seq<Op>, x: Image, s: nat)
    requires Steady(t) && History(t, g) && AllFit(t, g) && AllFit(Run(t, g), u)
    requires Steady(Run(t, g)) && History(Run(t, g), u)
    requires AllFit(x, g + u) && Replay(x, g + u).Success? && x.index == Run(t, g).index
    requires AllFit(x, g) && Replay(x, g).Success? && Begins(Replay(x, g).value, x, Run(t, g), u, s) && Touches(u, s)
    requires Replay(x, g + u).value.index == Run(Run(t, g), u).index
    ensures Match(Replay(x, g + u).value, Run(Run(t, g), u), s) <==> !LostSlot(x, g + u, s)
  {
    hide Run, Replay, History, Steady, AllFit, Gone, LostRow, Match, Touches, Begins, EndsSlot, Met;
    ReplaySplit(x, g, u);
    var r := Replay(x, g).value;
    var i := LastTouch(u, s);
    KnowsAll(x, t, g);
    PendingLast(r, Run(t, g), x, u, i);
    Behind(g, u, i);
    EndsWhole(g, u, i);
    PrefixFits(x, g + u, |g| + i);
    ReplaySplit(x, g, u[..i]);
    MetIs(x, g + u, |g| + i);
    FitsAt(x, g + u, |g| + i);
    LostOnly(x, g + u, |g| + i);
  }

  lemma Behind(g: seq<Op>, u: seq<Op>, i: nat)
    requires i < |u|
    ensures (g + u)[..|g| + i] == g + u[..i] && (g + u)[|g| + i] == u[i]
  {
  }

  lemma EndsWhole(g: seq<Op>, u: seq<Op>, i: nat)
    requires i < |u|
    ensures (g + u)[|g| + i] == u[i] && (EndsSlot(g + u, |g| + i) <==> EndsSlot(u, i))
  {
    assert (g + u)[|g| + i + 1..] == u[i + 1..];
  }

  /** The records that are not applied, from where replay begins on them. */
  lemma PendingLast(r: Image, m: Image, x: Image, u: seq<Op>, i: nat)
    requires Steady(m) && History(m, u) && AllFit(m, u) && AllFit(r, u) && Replay(r, u).Success? && Knows(r, m)
    requires i < |u| && EndsSlot(u, i) && Begins(r, x, m, u, u[i].slot) && Replay(r, u).value.index == Run(m, u).index
    ensures AllFit(r, u[..i]) && Replay(r, u[..i]).Success? && Fits(x, u[i])
    ensures Match(Replay(r, u).value, Run(m, u), u[i].slot) <==>
            !LostRow(x, u[i], u[i].key in Replay(r, u[..i]).value.index)
  {
    hide Run, Replay, History, Steady, AllFit, Gone, LostRow, Match, Begins, EndsSlot, Knows;
    assert u == u[..i] + u[i..];
    HistorySplit(m, u[..i], u[i..]);
    BeginsTracks(r, x, m, u, u[i].slot);
    if Gone(m, u, i) { GoneDiffers(r, m, u, i); }
    PresentHead(m, u, i);
    TracksTo(r, m, r, u, u[i].slot, i);
    FitsAt(r, u, i);
    SameLoss(r, x, m, u, i, u[i].key in Replay(r, u[..i]).value.index);
  }

  lemma GoneDiffers(r: Image, m: Image, u: seq<Op>, i: nat)
    requires Steady(m) && History(m, u) && AllFit(m, u) && AllFit(r, u) && |r.ver| == |m.ver| && Replay(r, u).Success?
    requires i < |u| && EndsSlot(u, i) && AllFit(m, u[..i]) && Gone(m, u, i)
    ensures Replay(r, u).value.index != Run(m, u).index
  {
    hide Run, Replay, History, Steady, AllFit, Gone, EndsSlot;
    GoneRevives(r, m, u, i);
  }

  lemma PrefixFits(x: Image, h: seq<Op>, i: nat)
    requires AllFit(x, h) && i <= |h|
    ensures AllFit(x, h[..i])
  {
  }

  lemma PresentHead(m: Image, u: seq<Op>, i: nat)
    requires i < |u| && AllFit(m, u[..i]) && !Gone(m, u, i)
    ensures u[i].kind == Update ==> u[i].key in Run(m, u[..i]).index
  {
  }

  lemma FitsAt(x: Image, h: seq<Op>, i: nat)
    requires AllFit(x, h) && i < |h|
    ensures Fits(x, h[i])
  {
  }

  lemma BeginsTracks(r: Image, x: Image, m: Image, u: seq<Op>, s: nat)
    requires Begins(r, x, m, u, s)
    ensures Sized(r, m, r, s) && Sized(x, m, r, s) && Tracks(r, m, r, u, s)
  {
  }

  lemma KnowsAll(x: Image, t: Image, g: seq<Op>)
    requires AllFit(t, g) && AllFit(x, g) && Replay(x, g).Success? && x.index == Run(t, g).index
    ensures Knows(Replay(x, g).value, Run(t, g))
  {
    forall k | k in Run(t, g).index ensures k in Replay(x, g).value.index {
      KnowsKey(x, t, g, k);
    }
  }

  lemma LostOnly(x: Image, h: seq<Op>, i: nat)
    requires AllFit(x, h) && i < |h| && EndsSlot(h, i) && Fits(x, h[i])
    ensures LostSlot(x, h, h[i].slot) <==> LostRow(x, h[i], Met(x, h, i))
  {
    hide LostRow, Met;
    if LostRow(x, h[i], Met(x, h, i)) {
      assert LostAt(x, h, i);
    }
    if LostSlot(x, h, h[i].slot) {
      var j: nat :| LostAt(x, h, j) && h[j].slot == h[i].slot;
      OnlyLast(h, i, j);
    }
  }

  // ---- the whole table ----

  /** The history's records written so far, and where a crash left the one being applied. */
  datatype Crash = Crash(applied: nat, written: nat, torn: Row)

  predicate CrashOk(h: seq<Op>, c: Crash) {
    c.applied <= |h| && (c.applied == |h| ==> c.written == 0)
  }

  function CrashImage(im: Image, h: seq<Op>, c: Crash): Image
    requires AllFit(im, h) && CrashOk(h, c)
  {
    var before := Run(im, h[..c.applied]);
    if c.applied == |h| then before else
      assert Fits(im, h[c.applied]);
      After(before, h[c.applied], c.written, c.torn)
  }

  /** The records whose effect the crash image lacks, wholly or in part. */
  function Unapplied(h: seq<Op>, c: Crash): seq<Op>
    requires CrashOk(h, c)
  {
    if c.applied < |h| && c.written >= Writes(h[c.applied].kind) then h[c.applied + 1..] else h[c.applied..]
  }

  /** Index, tombstones and versions agree, and so do the records of live rows. */
  predicate SameTable(a: Image, b: Image) {
    && a.index == b.index && a.tomb == b.tomb && a.ver == b.ver && |a.rec| == |b.rec|
    && forall k :: k in a.index && a.index[k] < |a.rec| ==> a.rec[a.index[k]] == b.rec[b.index[k]]
  }

  lemma TableMatches(r: Image, t: Image)
    requires Shaped(r) && Steady(t) && |r.ver| == |t.ver| && r.index == t.index
    ensures SameTable(r, t) <==> forall s: nat :: s < |r.ver| ==> Match(r, t, s)
  {
    if forall s: nat :: s < |r.ver| ==> Match(r, t, s) {
      forall k | k in r.index ensures r.rec[r.index[k]] == t.rec[t.index[k]] {
        assert At(t, k, t.index[k]) && Match(r, t, t.index[k]);
      }
      forall s: nat | s < |r.ver| ensures r.ver[s] == t.ver[s] && r.tomb[s] == t.tomb[s] {
        assert Match(r, t, s);
      }
      assert r.ver == t.ver && r.tomb == t.tomb;
    }
    if SameTable(r, t) {
      forall s: nat | s < |r.ver| ensures Match(r, t, s) {
        if !Free(t, s) {
          var k :| At(t, k, s);
          assert k in r.index && r.rec[r.index[k]] == t.rec[t.index[k]];
        }
      }
    }
  }

  lemma LosesSlot(x: Image, h: seq<Op>)
    requires AllFit(x, h)
    ensures LosesRow(x, h) <==> exists s: nat :: s < |x.ver| && LostSlot(x, h, s)
  {
    hide EndsSlot, LostRow, Met;
    if LosesRow(x, h) {
      var i: nat :| LostAt(x, h, i);
      FitsAt(x, h, i);
      assert LostSlot(x, h, h[i].slot);
    }
    if s: nat :| s < |x.ver| && LostSlot(x, h, s) {
      var i: nat :| LostAt(x, h, i) && h[i].slot == s;
    }
  }

  /** Any slot, once the replayed index is the history's. */
  lemma SlotRecovers(t: Image, g: seq<Op>, u: seq<Op>, w: nat, torn: Row, s: nat)
    requires Steady(t) && History(t, g + u) && AllFit(t, g) && AllFit(Run(t, g), u) && (w == 0 || Started(u, w))
    requires var x := Caught(Run(t, g), u, w, torn);
      && s < |x.ver| && AllFit(x, g + u) && Replay(x, g + u).Success?
      && Replay(x, g + u).value.index == Run(t, g + u).index
    ensures var x := Caught(Run(t, g), u, w, torn);
      Match(Replay(x, g + u).value, Run(t, g + u), s) <==> !LostSlot(x, g + u, s)
  {
    hide Run, Replay, History, Steady, AllFit, Match, LostSlot, Caught, Begins, Started;
    HistorySplit(t, g, u);
    var m := Run(t, g);
    var x := Caught(m, u, w, torn);
    ReplaySplit(x, g, u);
    CaughtIndex(m, u, w, torn);
    if Started(u, w) && s == VictimSlot(u, w) {
      VictimBegins(t, g, u, w, torn);
      VictimTouches(u, w);
      PendingSlot(t, g, u, x, s);
    } else {
      NoVictim(u, w, s);
      CaughtElsewhere(m, u, w, torn, s);
      if Touches(u, s) {
        BystanderBegins(t, g, u, x, s);
        PendingSlot(t, g, u, x, s);
      } else {
        AppliedSlot(t, g, u, x, s);
      }
    }
  }

  function VictimSlot(u: seq<Op>, w: nat): nat
    requires Started(u, w)
  {
    u[0].slot
  }

  lemma VictimTouches(u: seq<Op>, w: nat)
    requires Started(u, w)
    ensures u != [] && VictimSlot(u, w) == u[0].slot && Touches(u, u[0].slot)
  {
  }

  lemma NoVictim(u: seq<Op>, w: nat, s: nat)
    requires w == 0 || Started(u, w)
    requires !Started(u, w) || s != VictimSlot(u, w)
    ensures w == 0 || (Started(u, w) && u != [] && s != u[0].slot)
  {
  }

  /** g is replayed although applied; u is not applied yet, but for the first w writes of its first operation. */
  lemma TableRecovers(t: Image, g: seq<Op>, u: seq<Op>, w: nat, torn: Row)
    requires Steady(t) && History(t, g + u) && AllFit(t, g) && AllFit(Run(t, g), u) && (w == 0 || Started(u, w))
    requires var x := Caught(Run(t, g), u, w, torn); AllFit(x, g + u) && Replay(x, g + u).Success?
    ensures AllFit(t, g + u)
    ensures var x := Caught(Run(t, g), u, w, torn);
      SameTable(Replay(x, g + u).value, Run(t, g + u)) <==> !Revives(x.index, g + u) && !LosesRow(x, g + u)
  {
    hide Run, Replay, History, Steady, AllFit, Match, LostSlot, Caught, Revives, LosesRow, Started, SameTable;
    HistorySplit(t, g, u);
    RunSteady(t, g + u);
    var x := Caught(Run(t, g), u, w, torn);
    var r, end := Replay(x, g + u).value, Run(t, g + u);
    CaughtIndex(Run(t, g), u, w, torn);
    IndexFollows(x, t, g, u);
    if r.index == end.index {
      forall s: nat | s < |x.ver| ensures Match(r, end, s) <==> !LostSlot(x, g + u, s) {
        SlotRecovers(t, g, u, w, torn, s);
      }
      SteadyShape(end);
      TableMatches(r, end);
      LosesSlot(x, g + u);
    } else {
      assert !SameTable(r, end) by { SameIndex(r, end); }
    }
  }

  lemma SameIndex(a: Image, b: Image)
    ensures SameTable(a, b) ==> a.index == b.index
  {
  }

  lemma SteadyShape(t: Image)
    requires Steady(t)
    ensures Shaped(t)
  {
  }

  lemma {:induction false} AfterBeyond(t: Image, op: Op, w: nat, torn: Row)
    requires Fits(t, op) && w >= Writes(op.kind)
    ensures After(t, op, w, torn) == Applied(t, op)
    decreases w
  {
    if w > Writes(op.kind) {
      AfterBeyond(t, op, w - 1, torn);
    } else {
      AfterAll(t, op, torn);
    }
  }

  /** Where the crash divides the history: how many operations are complete, and the writes of the next. */
  function Complete(h: seq<Op>, c: Crash): (n: nat)
    requires CrashOk(h, c)
    ensures c.applied <= n <= |h| && Unapplied(h, c) == h[n..]
  {
    if c.applied < |h| && c.written >= Writes(h[c.applied].kind) then c.applied + 1 else c.applied
  }

  lemma CrashIsCaught(im: Image, h: seq<Op>, c: Crash)
    requires Steady(im) && History(im, h) && CrashOk(h, c)
    ensures var n := Complete(h, c); var w := if n > c.applied then 0 else c.written;
      && AllFit(im, h) && AllFit(im, h[..n]) && AllFit(Run(im, h[..n]), h[n..]) && (w == 0 || Started(h[n..], w))
      && CrashImage(im, h, c) == Caught(Run(im, h[..n]), h[n..], w, c.torn)
  {
    hide Run, History, AllFit, Steady, After, Applied;
    var n := Complete(h, c);
    HistoryParts(im, h, c.applied);
    HistoryParts(im, h, n);
    if n > c.applied {
      var op, before := h[c.applied], Run(im, h[..c.applied]);
      assert h[..n] == h[..c.applied] + [op] && h[c.applied..][0] == op;
      FitsHead(before, h[c.applied..]);
      AfterBeyond(before, op, c.written, c.torn);
      assert h[..n] + h[n..] == h;
      HistorySplit(im, h[..n], h[n..]);
      HistorySplit(im, h[..c.applied], [op]);
      RunOne(before, op);
      CaughtNone(Run(im, h[..n]), h[n..], c.torn);
    } else if n < |h| {
      assert h[n..][0] == h[n];
    }
  }

  lemma CaughtNone(t: Image, k: seq<Op>, torn: Row)
    requires AllFit(t, k)
    ensures Caught(t, k, 0, torn) == t
  {
  }

  lemma FitsHead(t: Image, k: seq<Op>)
    requires AllFit(t, k) && k != []
    ensures Fits(t, k[0])
  {
  }

  lemma RunOne(t: Image, op: Op)
    requires AllFit(t, [op])
    ensures Fits(t, op) && Run(t, [op]) == Applied(t, op)
  {
    assert Fits(t, [op][0]) && [op][1..] == [];
  }

  lemma HistoryParts(im: Image, h: seq<Op>, n: nat)
    requires Steady(im) && History(im, h) && n <= |h|
    ensures AllFit(im, h) && AllFit(im, h[..n]) && AllFit(Run(im, h[..n]), h[n..])
  {
    assert h[..n] + h[n..] == h;
    HistorySplit(im, h[..n], h[n..]);
  }

  /** The parts of a history around the replay's start p and the crash. */
  lemma CrashParts(im: Image, h: seq<Op>, p: nat, n: nat)
    requires Steady(im) && History(im, h) && p <= n <= |h|
    ensures AllFit(im, h) && AllFit(im, h[..p]) && AllFit(im, h[..n])
    ensures var t := Run(im, h[..p]);
      && Steady(t) && History(t, h[p..]) && AllFit(t, h[p..]) && History(t, h[p..n]) && AllFit(t, h[p..n])
      && AllFit(Run(t, h[p..n]), h[n..])
      && Run(t, h[p..n]) == Run(im, h[..n]) && Run(im, h) == Run(t, h[p..]) && h[p..] == h[p..n] + h[n..]
  {
    hide Run, History, AllFit, Steady;
    assert h == h[..p] + h[p..] && h[p..] == h[p..n] + h[n..] && h[..n] == h[..p] + h[p..n];
    assert h == h[..n] + h[n..];
    HistorySplit(im, h[..p], h[p..]);
    HistorySplit(im, h[..n], h[n..]);
    HistorySplit(im, h[..p], h[p..n]);
    HistorySplit(Run(im, h[..p]), h[p..n], h[n..]);
  }

  /** Recovery: replaying from any record up to the first unapplied one, over what a crash at any write left. It
      succeeds exactly when no key that the crash left in the index is first met in another slot and no key moves
      from an insert or update to another slot; and then the table is the whole history's exactly when no key is
      revived and no slot's last record is lost. */
  lemma RecoveryConverges(im: Image, h: seq<Op>, p: nat, c: Crash)
    requires Steady(im) && History(im, h) && CrashOk(h, c) && p <= c.applied
    ensures AllFit(im, h) && AllFit(CrashImage(im, h, c), h[p..])
    ensures var x := CrashImage(im, h, c); var r := Replay(x, h[p..]);
      && (r.Success? <==> HomesMatch(x.index, h[p..]) && NoMoves(h[p..]))
      && (r.Success? ==> (SameTable(r.value, Run(im, h)) <==> !Revives(x.index, h[p..]) && !LosesRow(x, h[p..])))
  {
    hide Run, Replay, History, Steady, HomesMatch, NoMoves, SameTable, LosesRow, Revives, CrashImage;
    var n := Complete(h, c);
    CrashParts(im, h, p, n);
    CrashIsCaught(im, h, c);
    var x := CrashImage(im, h, c);
    SameFit(im, x, h, p);
    SucceedsIff(x, h[p..]);
    if Replay(x, h[p..]).Success? {
      TableRecovers(Run(im, h[..p]), h[p..n], h[n..], if n > c.applied then 0 else c.written, c.torn);
    }
  }

  lemma SameFit(im: Image, x: Image, h: seq<Op>, p: nat)
    requires AllFit(im, h) && Shaped(x) && |x.ver| == |im.ver| && p <= |h|
    ensures AllFit(x, h[p..])
  {
    forall i | 0 <= i < |h| - p ensures Fits(x, h[p..][i]) {
      assert Fits(im, h[p + i]);
    }
  }
}
