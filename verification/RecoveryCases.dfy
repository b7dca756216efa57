/** Recovery's theorem where no operation repeats its slot's version, as when no batch touches a key twice
    (src/storage/table_store.cpp:660-820, 875-943). */
module RecoveryCases {
  import opened Errors
  import opened RecoveredTable
  import opened Recovery
  import opened RowImage

  // ---- versions that only grow ----

  ghost predicate Grows(im: Image, h: seq<Op>)
    requires AllFit(im, h)
    decreases |h|
  {
    h == [] || (assert Fits(im, h[0]); h[0].ver > im.ver[h[0].slot]
                && (RestFits(im, Applied(im, h[0]), h); Grows(Applied(im, h[0]), h[1..])))
  }

  lemma {:induction false} GrowsSplit(im: Image, g: seq<Op>, h: seq<Op>)
    requires AllFit(im, g + h) && AllFit(im, g) && AllFit(Run(im, g), h) && Grows(im, g + h)
    ensures Grows(im, g) && Grows(Run(im, g), h)
    decreases |g|
  {
    if g == [] {
      assert g + h == h;
    } else {
      assert (g + h)[0] == g[0] && (g + h)[1..] == g[1..] + h;
      RestFits(im, Applied(im, g[0]), g + h);
      RestFits(im, Applied(im, g[0]), g);
      GrowsSplit(Applied(im, g[0]), g[1..], h);
    }
  }

  lemma {:induction false} GrowsLater(m: Image, u: seq<Op>, i: nat)
    requires AllFit(m, u) && Grows(m, u) && i < |u| && History(m, u)
    ensures u[i].slot < |m.ver| && u[i].ver > m.ver[u[i].slot]
    decreases i
  {
    if i > 0 {
      RestFits(m, Applied(m, u[0]), u);
      GrowsLater(Applied(m, u[0]), u[1..], i - 1);
    }
  }

  lemma {:induction false} NoMovesPlain(t: Image, h: seq<Op>)
    requires Shaped(t) && History(t, h) && AllFit(t, h) && Grows(t, h)
    ensures NoMoves(h)
    decreases |h|
  {
    if h != [] {
      var t1 := Applied(t, h[0]);
      RestFits(t, t1, h);
      NoMovesPlain(t1, h[1..]);
      if h[0].kind == Update { assert At(t, h[0].key, h[0].slot); }
      if h[0].kind != Delete { FirstSlotLive(t1, h[1..], h[0].key); }
    }
  }

  /** No update meets a deleted key. */
  lemma NoneGone(t: Image, h: seq<Op>, i: nat)
    requires Steady(t) && History(t, h) && AllFit(t, h) && Grows(t, h) && i < |h|
    ensures AllFit(t, h[..i]) && !Gone(t, h, i)
  {
    var a, c := h[..i], h[i..];
    assert h == a + c && c[0] == h[i];
    HistorySplit(t, a, c);
    GrowsSplit(t, a, c);
    HistoryHead(Run(t, a), c);
    if h[i].kind == Update { assert At(Run(t, a), h[i].key, h[i].slot); }
  }

  /** A key whose last record is no delete is in the table. */
  lemma {:induction false} LastKept(t: Image, h: seq<Op>, k: int)
    requires History(t, h) && AllFit(t, h) && Grows(t, h) && LastRec(h, k).Some?
    ensures LastRec(h, k).value.kind != Delete ==> k in Run(t, h).index
    decreases |h|
  {
    var t1 := Applied(t, h[0]);
    RestFits(t, t1, h);
    if LastRec(h[1..], k).Some? {
      LastKept(t1, h[1..], k);
    } else {
      RunEntry(t1, h[1..], k);
      if h[0].kind == Update { assert At(t, h[0].key, h[0].slot); }
    }
  }

  /** The last record of the slot is an update. */
  ghost predicate EndsInUpdate(h: seq<Op>, s: nat) {
    exists i: nat :: i < |h| && h[i].slot == s && h[i].kind == Update && EndsSlot(h, i)
  }

  /** For some slot the last record is an update. */
  ghost predicate LosesUpdate(h: seq<Op>) {
    exists s: nat :: EndsInUpdate(h, s)
  }

  lemma RevivesPlain(x: Image, t: Image, g: seq<Op>, u: seq<Op>)
    requires Steady(t) && History(t, g + u) && AllFit(t, g) && AllFit(Run(t, g), u)
    requires AllFit(t, g + u) && Grows(t, g + u) && x.index == Run(t, g).index
    ensures !Revives(x.index, g + u)
  {
    hide Run, History, AllFit, LastRec, Alive, Grows;
    HistorySplit(t, g, u);
    forall k ensures !RevivesKey(x.index, g + u, k) {
      if LastRec(g + u, k).Some? { LastKept(t, g + u, k); }
      AliveFollows(x, t, g, u, k);
    }
  }

  /** What a crash leaves of an unapplied record: the slot is older, unless an insert or delete is all but done. */
  lemma PlainShown(m: Image, u: seq<Op>, w: nat, torn: Row, i: nat)
    requires Steady(m) && History(m, u) && AllFit(m, u) && Grows(m, u) && (w == 0 || Started(u, w)) && i < |u|
    ensures var x := Caught(m, u, w, torn); var op := u[i];
      && Fits(x, op)
      && (x.ver[op.slot] < op.ver || (op.kind == Insert && Shows(x, op)) || (op.kind == Delete && x.tomb[op.slot]))
  {
    hide Run, History, Grows, Steady, After;
    var op := u[i];
    GrowsLater(m, u, i);
    LaterRecord(m, u, i);
    if w > 0 && op.slot == u[0].slot {
      LaterRecord(m, u, 0);
      AfterShape(m, u[0], w, torn);
      if i > 0 { LaterGrows(m, u, i); }
    } else {
      CaughtElsewhere(m, u, w, torn, op.slot);
    }
  }

  lemma LaterGrows(m: Image, u: seq<Op>, i: nat)
    requires History(m, u) && AllFit(m, u) && Grows(m, u) && 0 < i < |u| && u[i].slot == u[0].slot
    ensures u[i].ver > u[0].ver
  {
    RestFits(m, Applied(m, u[0]), u);
    GrowsLater(Applied(m, u[0]), u[1..], i - 1);
  }

  lemma NewKey(t: Image, h: seq<Op>, i: nat)
    requires Steady(t) && History(t, h) && AllFit(t, h) && Grows(t, h) && i < |h| && h[i].kind == Insert
    ensures AllFit(t, h[..i]) && History(t, h[..i]) && Grows(t, h[..i]) && h[i].key !in Run(t, h[..i]).index
  {
    hide Run, History, Grows, Steady;
    assert h == h[..i] + h[i..] && h[i..][0] == h[i];
    HistorySplit(t, h[..i], h[i..]);
    GrowsSplit(t, h[..i], h[i..]);
    HistoryHead(Run(t, h[..i]), h[i..]);
  }

  /** Replay finds no key of an insert that is not applied. */
  lemma NotMet(x: Image, t: Image, g: seq<Op>, u: seq<Op>, i: nat)
    requires Steady(t) && History(t, g + u) && AllFit(t, g) && AllFit(Run(t, g), u)
    requires AllFit(t, g + u) && Grows(t, g + u) && x.index == Run(t, g).index
    requires History(t, g) && i < |u| && u[i].kind == Insert
    ensures !Met(x, g + u, |g| + i)
  {
    hide Run, History, AllFit, LastRec, Grows, Steady, Met;
    var k, a := u[i].key, g + u[..i];
    Behind(g, u, i);
    NewKey(t, g + u, |g| + i);
    MetBehind(x, g + u, a, |g| + i);
    if Met(x, g + u, |g| + i) { EntryBehind(t, g, u[..i], k); }
  }

  lemma MetBehind(x: Image, h: seq<Op>, a: seq<Op>, i: nat)
    requires i < |h| && a == h[..i]
    ensures Met(x, h, i) ==>
              (if LastRec(a, h[i].key).Some? then LastRec(a, h[i].key).value.kind != Delete else h[i].key in x.index)
  {
  }

  lemma EntryBehind(t: Image, g: seq<Op>, a: seq<Op>, k: int)
    requires AllFit(t, g + a) && AllFit(t, g) && History(t, g + a) && History(t, g) && Grows(t, g + a)
    requires if LastRec(g + a, k).Some? then LastRec(g + a, k).value.kind != Delete else k in Run(t, g).index
    ensures k in Run(t, g + a).index
  {
    hide Run, History, AllFit, LastRec, Grows;
    LastRecSplit(g, a, k);
    if LastRec(g + a, k).Some? {
      LastKept(t, g + a, k);
    } else {
      RunEntry(t, g + a, k);
      RunEntry(t, g, k);
    }
  }

  lemma PendingLoss(x: Image, t: Image, g: seq<Op>, u: seq<Op>, w: nat, torn: Row, i: nat)
    requires Steady(t) && History(t, g + u) && AllFit(t, g) && AllFit(Run(t, g), u) && (w == 0 || Started(u, w))
    requires AllFit(t, g + u) && Grows(t, g + u) && x == Caught(Run(t, g), u, w, torn) && AllFit(x, g + u) && i < |u|
    ensures Fits(x, u[i]) && (LostRow(x, u[i], Met(x, g + u, |g| + i)) <==> u[i].kind == Update)
  {
    hide Run, History, AllFit, LastRec, Grows, Steady, Caught, Met;
    HistorySplit(t, g, u);
    GrowsSplit(t, g, u);
    PlainShown(Run(t, g), u, w, torn, i);
    if u[i].kind == Insert {
      CaughtIndex(Run(t, g), u, w, torn);
      NotMet(x, t, g, u, i);
    }
  }

  lemma LosesPlain(x: Image, t: Image, g: seq<Op>, u: seq<Op>, w: nat, torn: Row)
    requires Steady(t) && History(t, g + u) && AllFit(t, g) && AllFit(Run(t, g), u) && (w == 0 || Started(u, w))
    requires AllFit(t, g + u) && Grows(t, g + u) && x == Caught(Run(t, g), u, w, torn) && AllFit(x, g + u)
    ensures LosesRow(x, g + u) <==> LosesUpdate(u)
  {
    hide Run, History, AllFit, Grows, Steady, Caught, Met, LostRow, EndsSlot;
    if LosesRow(x, g + u) {
      var i: nat :| LostAt(x, g + u, i);
      if i < |g| && !Touches(u, g[i].slot) {
        AppliedKept(x, t, g, u, w, torn, i);
      } else {
        EndsPending(g, u, i);
        PendingLoss(x, t, g, u, w, torn, i - |g|);
        assert EndsInUpdate(u, u[i - |g|].slot);
      }
    }
    if LosesUpdate(u) {
      var s: nat :| EndsInUpdate(u, s);
      var i: nat :| i < |u| && u[i].slot == s && u[i].kind == Update && EndsSlot(u, i);
      EndsWhole(g, u, i);
      PendingLoss(x, t, g, u, w, torn, i);
      assert LostAt(x, g + u, |g| + i);
    }
  }

  lemma EndsPending(g: seq<Op>, u: seq<Op>, i: nat)
    requires i < |g + u| && EndsSlot(g + u, i) && (i >= |g| || Touches(u, g[i].slot))
    ensures i >= |g| && (g + u)[i] == u[i - |g|] && EndsSlot(u, i - |g|)
  {
    if i < |g| {
      var j :| 0 <= j < |u| && u[j].slot == g[i].slot;
      LaterTouches(g + u, i, |g| + j);
    } else {
      EndsWhole(g, u, i - |g|);
    }
  }

  lemma AppliedKept(x: Image, t: Image, g: seq<Op>, u: seq<Op>, w: nat, torn: Row, i: nat)
    requires Steady(t) && History(t, g + u) && AllFit(t, g) && AllFit(Run(t, g), u) && (w == 0 || Started(u, w))
    requires AllFit(t, g + u) && Grows(t, g + u) && x == Caught(Run(t, g), u, w, torn) && AllFit(x, g + u)
    requires i < |g| && EndsSlot(g + u, i) && !Touches(u, g[i].slot)
    ensures !LostAt(x, g + u, i)
  {
    hide Run, History, Grows, Steady, Caught, Met, EndsSlot, Touches, Gone;
    HistorySplit(t, g, u);
    GrowsSplit(t, g, u);
    EndsPart(g, u, i);
    NoneGone(t, g, i);
    RowLeft(t, g, i);
    assert Fits(t, g[i]);
    ApartFromVictim(u, w, g[i].slot);
    CaughtElsewhere(Run(t, g), u, w, torn, g[i].slot);
  }

  lemma ApartFromVictim(u: seq<Op>, w: nat, s: nat)
    requires (w == 0 || Started(u, w)) && !Touches(u, s)
    ensures w == 0 || (Started(u, w) && s != u[0].slot)
  {
  }

  /** Where versions grow from record to record: recovery succeeds exactly when no key that the crash left in the index
      is first met in another slot; and then the table is the whole history's exactly when no slot's last unapplied
      record is an update. */
  lemma PlainRecovers(im: Image, h: seq<Op>, p: nat, c: Crash)
    requires Steady(im) && History(im, h) && CrashOk(h, c) && p <= c.applied && AllFit(im, h) && Grows(im, h)
    ensures AllFit(CrashImage(im, h, c), h[p..])
    ensures var x := CrashImage(im, h, c); var r := Replay(x, h[p..]);
      && (r.Success? <==> HomesMatch(x.index, h[p..]))
      && (r.Success? ==> (SameTable(r.value, Run(im, h)) <==> !LosesUpdate(Unapplied(h, c))))
  {
    hide Run, Replay, History, Steady, HomesMatch, NoMoves, SameTable, LosesRow, Revives, CrashImage, LosesUpdate;
    hide Grows, AllFit;
    RecoveryConverges(im, h, p, c);
    var n := Complete(h, c);
    var w := if n > c.applied then 0 else c.written;
    CrashParts(im, h, p, n);
    CrashIsCaught(im, h, c);
    var x, t := CrashImage(im, h, c), Run(im, h[..p]);
    assert h == h[..p] + h[p..];
    GrowsSplit(im, h[..p], h[p..]);
    SteadyShape(t);
    NoMovesPlain(t, h[p..]);
    CaughtIndex(Run(t, h[p..n]), h[n..], w, c.torn);
    RevivesPlain(x, t, h[p..n], h[n..]);
    LosesPlain(x, t, h[p..n], h[n..], w, c.torn);
  }

  // ---- keys that keep their slots ----

  /** Every key has one slot in all its records. */
  predicate KeepsHomes(h: seq<Op>, home: map<int, nat>) {
    forall i :: 0 <= i < |h| ==> h[i].key in home && home[h[i].key] == h[i].slot
  }

  lemma {:induction false} FirstHome(h: seq<Op>, home: map<int, nat>, k: int)
    requires KeepsHomes(h, home)
    ensures FirstSlot(h, k).Some? ==> k in home && FirstSlot(h, k) == Some(home[k])
  {
    if h != [] && h[0].key != k {
      assert forall i :: 0 <= i < |h| - 1 ==> h[1..][i] == h[i + 1];
      FirstHome(h[1..], home, k);
    }
  }

  lemma {:induction false} FirstSlotSplit(g: seq<Op>, h: seq<Op>, k: int)
    ensures FirstSlot(g + h, k) == if FirstSlot(g, k).Some? then FirstSlot(g, k) else FirstSlot(h, k)
  {
    if g == [] {
      assert g + h == h;
    } else {
      assert (g + h)[0] == g[0] && (g + h)[1..] == g[1..] + h;
      FirstSlotSplit(g[1..], h, k);
    }
  }

  lemma {:induction false} EntryHome(t: Image, h: seq<Op>, home: map<int, nat>, k: int)
    requires History(t, h) && AllFit(t, h) && KeepsHomes(h, home) && k in Run(t, h).index
    ensures if FirstSlot(h, k).Some? then k in home && Run(t, h).index[k] == home[k]
            else k in t.index && Run(t, h).index[k] == t.index[k]
    decreases |h|
  {
    if h != [] {
      var t1 := Applied(t, h[0]);
      assert h[0].key in home && home[h[0].key] == h[0].slot;
      assert forall i :: 0 <= i < |h| - 1 ==> h[1..][i] == h[i + 1];
      RestFits(t, t1, h);
      EntryHome(t1, h[1..], home, k);
    }
  }

  lemma HomesSlice(h: seq<Op>, home: map<int, nat>, lo: nat, hi: nat)
    requires KeepsHomes(h, home) && lo <= hi <= |h|
    ensures KeepsHomes(h[lo..hi], home)
  {
  }

  /** A key in the index after a and g is next met, in g or behind it, where the index has it. */
  lemma KeyHome(im: Image, a: seq<Op>, g: seq<Op>, rest: seq<Op>, home: map<int, nat>, k: int)
    requires History(im, a + g) && AllFit(im, a + g) && KeepsHomes(a + g, home) && KeepsHomes(g, home)
    requires Shaped(Run(im, a + g)) && History(Run(im, a + g), rest) && k in Run(im, a + g).index
    ensures FirstSlot(g + rest, k) == None || FirstSlot(g + rest, k) == Some(Run(im, a + g).index[k])
  {
    hide Run, History, AllFit, KeepsHomes, FirstSlot;
    EntryHome(im, a + g, home, k);
    FirstHome(g, home, k);
    FirstSlotSplit(a, g, k);
    FirstSlotSplit(g, rest, k);
    FirstSlotLive(Run(im, a + g), rest, k);
  }

  /** When keys keep their slots, replay never meets one elsewhere. */
  lemma HomesKeptMatch(im: Image, h: seq<Op>, home: map<int, nat>, p: nat, n: nat)
    requires Steady(im) && History(im, h) && KeepsHomes(h, home) && p <= n <= |h|
    ensures AllFit(im, h[..n]) && HomesMatch(Run(im, h[..n]).index, h[p..])
  {
    hide Run, History, AllFit, Steady, KeepsHomes, FirstSlot;
    var a, g, rest := h[..p], h[p..n], h[n..];
    assert h[..n] == a + g && h == (a + g) + rest && h[p..] == g + rest && h[0..n] == h[..n];
    HistorySplit(im, a + g, rest);
    HomesSlice(h, home, 0, n);
    HomesSlice(h, home, p, n);
    var m := Run(im, h[..n]);
    SteadyShape(m);
    forall k | k in m.index ensures FirstSlot(h[p..], k) == None || FirstSlot(h[p..], k) == Some(m.index[k]) {
      KeyHome(im, a, g, rest, home, k);
    }
  }

  /** Without updates, and with every key in one slot, which other keys may share, recovery always converges. */
  lemma InsertsAndDeletesConverge(im: Image, h: seq<Op>, home: map<int, nat>, p: nat, c: Crash)
    requires Steady(im) && History(im, h) && CrashOk(h, c) && p <= c.applied && KeepsHomes(h, home)
    requires AllFit(im, h) && Grows(im, h) && forall i :: 0 <= i < |h| ==> h[i].kind != Update
    ensures AllFit(CrashImage(im, h, c), h[p..])
    ensures var r := Replay(CrashImage(im, h, c), h[p..]); r.Success? && SameTable(r.value, Run(im, h))
  {
    hide Run, Replay, History, Steady, HomesMatch, SameTable, AllFit, CrashImage, KeepsHomes, Grows;
    PlainRecovers(im, h, p, c);
    var n := Complete(h, c);
    HomesKeptMatch(im, h, home, p, n);
    CrashIsCaught(im, h, c);
    CaughtIndex(Run(im, h[..n]), h[n..], if n > c.applied then 0 else c.written, c.torn);
    var u := Unapplied(h, c);
    forall i | 0 <= i < |u| ensures u[i].kind != Update {
      assert u[i] == h[n + i];
    }
  }
}
