/** Replaying the row log over an image that a crash left behind (src/storage/table_store.cpp:875-943,
    src/storage/wal_ring.cpp:480-553). Slots are reused by other keys and keys come back in other slots, as the
    store does it. One batch may work on a slot several times under one version, since each of its operations is
    staged on the rows before the batch: it may update a row and then delete it, and even update it after that. */
module Recovery {
  import opened Errors
  import opened RowImage

  // ---- replaying one record ----

  function ReplayUpsert(im: Image, op: Op): Result<Image>
    requires Fits(im, op)
  {
    if op.key in im.index then
      if im.index[op.key] == op.slot then Success(im) else Failure(Corruption)
    else
      var s := op.slot;
      var w := if im.ver[s] < op.ver
               then Image(im.ver[s := op.ver], im.rec[s := op.rec], im.tomb[s := false], im.index) else im;
      Success(w.(index := w.index[op.key := s]))
  }

  function ReplayDelete(im: Image, op: Op): Result<Image>
    requires Fits(im, op)
  {
    if op.key in im.index && im.index[op.key] != op.slot then Failure(Corruption)
    else
      var s := op.slot;
      var w := if im.ver[s] < op.ver then Image(im.ver[s := op.ver], im.rec, im.tomb[s := true], im.index) else im;
      Success(w.(index := w.index - {op.key}))
  }

  function ReplayOp(im: Image, op: Op): (r: Result<Image>)
    requires Fits(im, op)
    ensures r.Success? ==> |r.value.ver| == |im.ver| && Fits(r.value, op)
    ensures r.Failure? ==> r.error == Corruption
  {
    if op.kind == Delete then ReplayDelete(im, op) else ReplayUpsert(im, op)
  }

  predicate AllFit(im: Image, h: seq<Op>) {
    |im.ver| == |im.rec| == |im.tomb| && forall i :: 0 <= i < |h| ==> Fits(im, h[i])
  }

  function Replay(im: Image, h: seq<Op>): (r: Result<Image>)
    requires AllFit(im, h)
    decreases |h|
    ensures r.Success? ==> |r.value.ver| == |r.value.rec| == |r.value.tomb| == |im.ver|
    ensures r.Failure? ==> r.error == Corruption
  {
    if h == [] then Success(im) else
      var r := ReplayOp(im, h[0]);
      if r.Failure? then r else
        assert forall i :: 0 <= i < |h| - 1 ==> h[1..][i] == h[i + 1];
        Replay(r.value, h[1..])
  }

  function Run(im: Image, h: seq<Op>): (r: Image)
    requires AllFit(im, h)
    decreases |h|
    ensures |r.ver| == |r.rec| == |r.tomb| == |im.ver|
  {
    if h == [] then im else
      assert forall i :: 0 <= i < |h| - 1 ==> h[1..][i] == h[i + 1];
      Run(Applied(im, h[0]), h[1..])
  }

  // ---- histories ----

  predicate Shaped(im: Image) {
    |im.ver| == |im.rec| == |im.tomb|
  }

  /** The index names slot s for key k. */
  predicate At(im: Image, k: int, s: nat) {
    k in im.index && im.index[k] == s
  }

  ghost predicate Free(im: Image, s: nat) {
    forall k :: !At(im, k, s)
  }

  /** What the index names is a slot in range that is not a tombstone, a different one for every key. */
  ghost predicate Steady(im: Image) {
    && Shaped(im)
    && (forall k :: k in im.index ==> im.index[k] < |im.ver| && !im.tomb[im.index[k]])
    && (forall k, l, s {:trigger At(im, k, s), At(im, l, s)} :: At(im, k, s) && At(im, l, s) ==> k == l)
  }
  /** The slot of a key that the batch has deleted: tombstoned, no key's, at the version that the deletion gave it. */
  ghost predicate Dead(im: Image, op: Op)
    requires Fits(im, op)
  {
    op.key !in im.index && Free(im, op.slot) && im.tomb[op.slot] && op.ver == im.ver[op.slot]
  }

  /** What staging guarantees of an operation when it is applied. An insert takes a slot that no key has, at a new
      version. An update or a delete works on the slot of its key, which an earlier operation of its batch may have
      brought to the same version already; an update may also find that its batch has deleted the key. */
  ghost predicate Stageable(im: Image, op: Op) {
    && Fits(im, op) && op.ver >= 2
    && match op.kind
       case Insert => op.key !in im.index && Free(im, op.slot) && op.ver > im.ver[op.slot]
       case Update => op.ver >= im.ver[op.slot] && (At(im, op.key, op.slot) || Dead(im, op))
       case Delete => op.ver >= im.ver[op.slot] && At(im, op.key, op.slot)
  }

  predicate NewerOn(h: seq<Op>, s: nat, v: nat) {
    forall i :: 0 <= i < |h| && h[i].slot == s ==> h[i].ver > v
  }

  /** Operations as the store logs and applies them. No batch works on a slot again that it inserts into. */
  ghost predicate History(im: Image, h: seq<Op>)
    decreases |h|
  {
    h == [] || (&& Stageable(im, h[0])
                && (h[0].kind == Insert ==> NewerOn(h[1..], h[0].slot, h[0].ver))
                && History(Applied(im, h[0]), h[1..]))
  }

  lemma {:induction false} HistoryFits(im: Image, h: seq<Op>)
    requires History(im, h) && Shaped(im)
    ensures AllFit(im, h)
    decreases |h|
  {
    if h != [] {
      HistoryFits(Applied(im, h[0]), h[1..]);
      forall i | 0 <= i < |h| ensures Fits(im, h[i]) {
        if i > 0 { assert h[i] == h[1..][i - 1]; }
      }
    }
  }

  lemma AppliedSteady(im: Image, op: Op)
    requires Steady(im) && Stageable(im, op)
    ensures Steady(Applied(im, op))
  {
    var t := Applied(im, op);
    forall k | k in t.index ensures t.index[k] < |t.ver| && !t.tomb[t.index[k]] {
      if k != op.key { assert At(im, k, im.index[k]); }
    }
    forall k, l, s | At(t, k, s) && At(t, l, s) ensures k == l {
      assert k != op.key ==> At(im, k, s);
      assert l != op.key ==> At(im, l, s);
    }
  }

  lemma RestFits(r: Image, r1: Image, h: seq<Op>)
    requires AllFit(r, h) && h != [] && Shaped(r1) && |r1.ver| == |r.ver|
    ensures AllFit(r1, h[1..])
  {
    forall i | 0 <= i < |h| - 1 ensures Fits(r1, h[1..][i]) {
      assert Fits(r, h[i + 1]);
    }
  }

  lemma NewerTail(h: seq<Op>, s: nat, v: nat)
    requires h != [] && NewerOn(h, s, v)
    ensures NewerOn(h[1..], s, v)
  {
    assert forall i :: 0 <= i < |h| - 1 ==> h[1..][i] == h[i + 1];
  }

  lemma {:induction false} HistorySplit(im: Image, g: seq<Op>, h: seq<Op>)
    requires Steady(im) && History(im, g + h)
    ensures AllFit(im, g + h) && AllFit(im, g) && History(im, g)
    ensures Steady(Run(im, g)) && History(Run(im, g), h) && AllFit(Run(im, g), h)
    ensures Run(im, g + h) == Run(Run(im, g), h)
    decreases |g|
  {
    HistoryFits(im, g + h);
    if g == [] {
      assert g + h == h;
    } else {
      assert (g + h)[0] == g[0] && (g + h)[1..] == g[1..] + h;
      AppliedSteady(im, g[0]);
      HistorySplit(Applied(im, g[0]), g[1..], h);
      assert forall i :: 0 <= i < |g| - 1 ==> (g[1..] + h)[i] == g[1..][i];
      HistoryFits(im, g);
    }
  }

  /** Histories follow each other when the later one's versions are new, as those of every next batch are. */
  lemma {:induction false} HistoryJoin(im: Image, g: seq<Op>, h: seq<Op>)
    requires Steady(im) && History(im, g) && AllFit(im, g) && History(Run(im, g), h)
    requires forall i :: 0 <= i < |h| ==> h[i].slot < |im.ver| && h[i].ver > Run(im, g).ver[h[i].slot]
    ensures History(im, g + h)
    decreases |g|
  {
    if g == [] {
      assert g + h == h;
    } else {
      var t := Applied(im, g[0]);
      assert (g + h)[0] == g[0] && (g + h)[1..] == g[1..] + h;
      AppliedSteady(im, g[0]);
      RestFits(im, t, g);
      HistoryJoin(t, g[1..], h);
      if g[0].kind == Insert {
        VersionsGrow(t, g[1..], g[0].slot);
        forall i | 0 <= i < |g[1..] + h| && (g[1..] + h)[i].slot == g[0].slot ensures (g[1..] + h)[i].ver > g[0].ver {
          if i >= |g| - 1 { assert (g[1..] + h)[i] == h[i - (|g| - 1)]; }
        }
      }
    }
  }

  lemma {:induction false} VersionsGrow(t: Image, h: seq<Op>, s: nat)
    requires History(t, h) && AllFit(t, h) && s < |t.ver|
    ensures t.ver[s] <= Run(t, h).ver[s]
    decreases |h|
  {
    if h != [] {
      RestFits(t, Applied(t, h[0]), h);
      VersionsGrow(Applied(t, h[0]), h[1..], s);
    }
  }

  lemma {:induction false} RunSteady(t: Image, h: seq<Op>)
    requires Steady(t) && History(t, h)
    ensures AllFit(t, h) && Steady(Run(t, h))
  {
    assert h + [] == h;
    HistorySplit(t, h, []);
  }

  lemma {:induction false} ReplaySplit(x: Image, g: seq<Op>, k: seq<Op>)
    requires AllFit(x, g + k)
    ensures AllFit(x, g)
    ensures Replay(x, g).Success? ==> AllFit(Replay(x, g).value, k)
    ensures Replay(x, g + k) == if Replay(x, g).Failure? then Replay(x, g) else Replay(Replay(x, g).value, k)
    decreases |g|
  {
    assert forall i :: 0 <= i < |g| ==> (g + k)[i] == g[i];
    assert forall i :: 0 <= i < |k| ==> (g + k)[|g| + i] == k[i];
    if g == [] {
      assert g + k == k;
    } else {
      assert (g + k)[0] == g[0] && (g + k)[1..] == g[1..] + k;
      var first := ReplayOp(x, g[0]);
      if first.Success? {
        RestFits(x, first.value, g + k);
        ReplaySplit(first.value, g[1..], k);
      }
    }
  }

  // ---- when replay succeeds ----

  /** The slot in the first record of a key. */
  function FirstSlot(h: seq<Op>, k: int): Option<nat> {
    if h == [] then None else if h[0].key == k then Some(h[0].slot) else FirstSlot(h[1..], k)
  }

  /** The first record of every indexed key, if it has any, has the slot that the index names. */
  ghost predicate HomesMatch(index: map<int, nat>, h: seq<Op>) {
    forall k :: k in index ==> FirstSlot(h, k) == None || FirstSlot(h, k) == Some(index[k])
  }

  /** Behind an insert or update of a key, the key's next record has the same slot. */
  predicate NoMoves(h: seq<Op>) {
    h == [] || (&& (h[0].kind == Delete || FirstSlot(h[1..], h[0].key) == None
                    || FirstSlot(h[1..], h[0].key) == Some(h[0].slot))
                && NoMoves(h[1..]))
  }

  /** Over any image and of any log: replay succeeds exactly when no indexed key is first met in another slot and no
      key moves from an insert or update to another slot. */
  lemma {:induction false} SucceedsIff(r: Image, h: seq<Op>)
    requires AllFit(r, h)
    ensures Replay(r, h).Success? <==> HomesMatch(r.index, h) && NoMoves(h)
    decreases |h|
  {
    if h != [] {
      var op, rest := h[0], h[1..];
      var first := ReplayOp(r, op);
      assert FirstSlot(h, op.key) == Some(op.slot);
      if first.Success? {
        RestFits(r, first.value, h);
        SucceedsIff(first.value, rest);
        HomesStep(r.index, first.value.index, h);
      } else {
        assert op.key in r.index && r.index[op.key] != op.slot;
      }
    }
  }

  lemma HomesStep(a: map<int, nat>, b: map<int, nat>, h: seq<Op>)
    requires h != [] && (h[0].key in a ==> a[h[0].key] == h[0].slot)
    requires forall k :: k != h[0].key ==> (k in a <==> k in b) && (k in a ==> a[k] == b[k])
    requires h[0].key in b <==> h[0].kind != Delete
    requires h[0].key in b ==> b[h[0].key] == h[0].slot
    ensures HomesMatch(a, h) && NoMoves(h) <==> HomesMatch(b, h[1..]) && NoMoves(h[1..])
  {
    forall k | k != h[0].key ensures FirstSlot(h, k) == FirstSlot(h[1..], k) {
    }
    if HomesMatch(b, h[1..]) && h[0].kind != Delete {
      assert h[0].key in b;
    }
  }

  /** In a history that starts with the key in the index, its first record is in its slot. */
  lemma {:induction false} FirstSlotLive(t: Image, h: seq<Op>, k: int)
    requires History(t, h) && Shaped(t) && k in t.index
    ensures FirstSlot(h, k) == None || FirstSlot(h, k) == Some(t.index[k])
    decreases |h|
  {
    if h != [] && h[0].key != k {
      FirstSlotLive(Applied(t, h[0]), h[1..], k);
    }
  }

  // ---- the index ----

  predicate SameEntry(a: Image, b: Image, k: int) {
    (k in a.index <==> k in b.index) && (k in a.index ==> a.index[k] == b.index[k])
  }

  /** The last record of a key. */
  function LastRec(h: seq<Op>, k: int): (r: Option<Op>) {
    if h == [] then None
    else if LastRec(h[1..], k).Some? then LastRec(h[1..], k)
    else if h[0].key == k then Some(h[0]) else None
  }

  /** Whether inserts and deletes leave the key in the table; updates do not decide it. */
  function Alive(before: bool, h: seq<Op>, k: int): bool
    decreases |h|
  {
    if h == [] then before
    else if h[0].key == k && h[0].kind != Update then Alive(h[0].kind == Insert, h[1..], k)
    else Alive(before, h[1..], k)
  }

  lemma {:induction false} LastRecSplit(g: seq<Op>, h: seq<Op>, k: int)
    ensures LastRec(g + h, k) == if LastRec(h, k).Some? then LastRec(h, k) else LastRec(g, k)
  {
    if g == [] {
      assert g + h == h;
    } else {
      assert (g + h)[0] == g[0] && (g + h)[1..] == g[1..] + h;
      LastRecSplit(g[1..], h, k);
    }
  }

  lemma {:induction false} AliveSplit(before: bool, g: seq<Op>, h: seq<Op>, k: int)
    ensures Alive(before, g + h, k) == Alive(Alive(before, g, k), h, k)
    decreases |g|
  {
    if g == [] {
      assert g + h == h;
    } else {
      assert (g + h)[0] == g[0] && (g + h)[1..] == g[1..] + h;
      AliveSplit(if g[0].key == k && g[0].kind != Update then g[0].kind == Insert else before, g[1..], h, k);
    }
  }

  lemma {:induction false} AliveMonotone(g: seq<Op>, k: int)
    ensures Alive(false, g, k) ==> Alive(true, g, k)
  {
    if g != [] { AliveMonotone(g[1..], k); }
  }

  lemma AliveTwice(before: bool, g: seq<Op>, k: int)
    ensures Alive(Alive(before, g, k), g, k) == Alive(before, g, k)
  {
    AliveMonotone(g, k);
  }

  lemma {:induction false} AliveLast(before: bool, h: seq<Op>, k: int)
    requires LastRec(h, k).Some? && LastRec(h, k).value.kind != Update
    ensures Alive(before, h, k) <==> LastRec(h, k).value.kind == Insert
    decreases |h|
  {
    var next := if h[0].key == k && h[0].kind != Update then h[0].kind == Insert else before;
    if LastRec(h[1..], k).Some? {
      AliveLast(next, h[1..], k);
    } else {
      AliveUntouched(next, h[1..], k);
    }
  }

  lemma {:induction false} AliveUntouched(before: bool, h: seq<Op>, k: int)
    requires LastRec(h, k) == None
    ensures Alive(before, h, k) == before
  {
    if h != [] { AliveUntouched(before, h[1..], k); }
  }

  /** What replay leaves of a key's entry: the key's last record decides, whatever was there. */
  lemma {:induction false} ReplayEntry(r: Image, h: seq<Op>, k: int)
    requires AllFit(r, h) && Replay(r, h).Success?
    ensures var last, end := LastRec(h, k), Replay(r, h).value;
      if last == None then SameEntry(end, r, k)
      else (k in end.index <==> last.value.kind != Delete) && (k in end.index ==> end.index[k] == last.value.slot)
    decreases |h|
  {
    if h != [] {
      var r1 := ReplayOp(r, h[0]).value;
      RestFits(r, r1, h);
      ReplayEntry(r1, h[1..], k);
    }
  }

  /** What the history leaves of it: an update decides nothing. */
  lemma {:induction false} RunEntry(t: Image, h: seq<Op>, k: int)
    requires History(t, h) && AllFit(t, h)
    ensures var last, end := LastRec(h, k), Run(t, h);
      && (k in end.index <==> Alive(k in t.index, h, k))
      && (k in end.index && last.Some? ==> end.index[k] == last.value.slot)
      && (last == None ==> SameEntry(end, t, k))
    decreases |h|
  {
    if h != [] {
      var t1 := Applied(t, h[0]);
      RestFits(t, t1, h);
      RunEntry(t1, h[1..], k);
    }
  }

  /** A key that replay brings back although the history has deleted it: its last record is an update that its batch
      logged behind the delete. */
  ghost predicate Revives(index: map<int, nat>, h: seq<Op>) {
    exists k :: RevivesKey(index, h, k)
  }

  predicate RevivesKey(index: map<int, nat>, h: seq<Op>, k: int) {
    LastRec(h, k).Some? && LastRec(h, k).value.kind == Update && !Alive(k in index, h, k)
  }

  /** g is applied, u is not: replaying both leaves the history's index exactly when no key is revived. */
  lemma IndexFollows(x: Image, t: Image, g: seq<Op>, u: seq<Op>)
    requires History(t, g) && AllFit(t, g) && History(Run(t, g), u) && AllFit(Run(t, g), u)
    requires AllFit(x, g + u) && x.index == Run(t, g).index && Replay(x, g + u).Success?
    ensures Replay(x, g + u).value.index == Run(Run(t, g), u).index <==> !Revives(x.index, g + u)
  {
    hide Run, Replay, History, AllFit, LastRec, Alive;
    var a, b := Replay(x, g + u).value, Run(Run(t, g), u);
    forall k ensures SameEntry(a, b, k) <==> !RevivesKey(x.index, g + u, k) {
      EntryFollows(x, t, g, u, k);
    }
    EqualIndex(a, b);
    if a.index == b.index {
      assert forall k :: SameEntry(a, b, k);
    }
  }

  lemma EqualIndex(a: Image, b: Image)
    ensures a.index == b.index <==> forall k :: SameEntry(a, b, k)
  {
    if forall k :: SameEntry(a, b, k) {
      forall k ensures k in a.index <==> k in b.index {
        assert SameEntry(a, b, k);
      }
      assert a.index.Keys == b.index.Keys;
      forall k | k in a.index ensures a.index[k] == b.index[k] {
        assert SameEntry(a, b, k);
      }
    }
  }

  /** The log and the index that the crash left tell which keys the history ends with. */
  lemma AliveFollows(x: Image, t: Image, g: seq<Op>, u: seq<Op>, k: int)
    requires History(t, g) && AllFit(t, g) && History(Run(t, g), u) && AllFit(Run(t, g), u)
    requires x.index == Run(t, g).index
    ensures k in Run(Run(t, g), u).index <==> Alive(k in x.index, g + u, k)
  {
    hide Run, History, AllFit, LastRec, Alive;
    RunEntry(t, g, k);
    RunEntry(Run(t, g), u, k);
    AliveSplit(k in x.index, g, u, k);
    AliveTwice(k in t.index, g, k);
  }

  lemma EntryFollows(x: Image, t: Image, g: seq<Op>, u: seq<Op>, k: int)
    requires History(t, g) && AllFit(t, g) && History(Run(t, g), u) && AllFit(Run(t, g), u)
    requires AllFit(x, g + u) && x.index == Run(t, g).index && Replay(x, g + u).Success?
    ensures SameEntry(Replay(x, g + u).value, Run(Run(t, g), u), k) <==> !RevivesKey(x.index, g + u, k)
  {
    hide Run, Replay, History, AllFit, LastRec, Alive;
    ReplayEntry(x, g + u, k);
    RunEntry(t, g, k);
    RunEntry(Run(t, g), u, k);
    LastRecSplit(g, u, k);
    AliveFollows(x, t, g, u, k);
    if LastRec(g + u, k).Some? && LastRec(g + u, k).value.kind != Update {
      AliveLast(k in x.index, g + u, k);
    }
  }
}
