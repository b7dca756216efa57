/** The write protocol over the ring as a state machine, with crashes between any two calls and the
    recovery pass that filters unfinished batches (wal_ring.cpp:480-609, engine.cpp:272-322 and
    1359-1416). A state keeps the retained records and, for the claims only, who wrote each. */
module WalProtocol {
  import opened LittleEndian
  import opened WalFormat

  predicate IsMark(r: Record) {
    r.op == OP_BEGIN || r.op == OP_COMMIT
  }

  // ---- the recovery filter ----

  /** What recovery has gathered: the open batch, the records handed to the stores, how many records
      make up the valid prefix; clean says that no batch was begun inside another. */
  datatype Replay = Replay(inBatch: bool, buf: seq<Record>, applied: seq<Record>, valid: nat, clean: bool)

  /** Records at or below the checkpoint are skipped: they are already in the image. */
  function Fresh(ckpt: nat, rs: seq<Record>): seq<Record> {
    if rs == [] then []
    else Fresh(ckpt, rs[..|rs| - 1]) + (if rs[|rs| - 1].seqNo <= ckpt then [] else [rs[|rs| - 1]])
  }

  function ReplayStep(ckpt: nat, st: Replay, n: nat, r: Record): Replay {
    if r.op == OP_BEGIN then st.(inBatch := true, buf := [], clean := st.clean && !st.inBatch)
    else if r.op == OP_COMMIT then
      Replay(false, [], st.applied + Fresh(ckpt, st.buf), n, st.clean)
    else if st.inBatch then st.(buf := st.buf + [r])
    else st.(applied := st.applied + Fresh(ckpt, [r]), valid := n)
  }

  function Fold(ckpt: nat, rs: seq<Record>): (st: Replay)
    ensures st.valid <= |rs|
  {
    if rs == [] then Replay(false, [], [], 0, true)
    else ReplayStep(ckpt, Fold(ckpt, rs[..|rs| - 1]), |rs|, rs[|rs| - 1])
  }

  function Rows(rs: seq<Record>): seq<Record> {
    if rs == [] then []
    else Rows(rs[..|rs| - 1]) + (if IsMark(rs[|rs| - 1]) then [] else [rs[|rs| - 1]])
  }

  lemma FoldPush(ckpt: nat, rs: seq<Record>, r: Record)
    ensures Fold(ckpt, rs + [r]) == ReplayStep(ckpt, Fold(ckpt, rs), |rs| + 1, r)
    ensures Rows(rs + [r]) == Rows(rs) + (if IsMark(r) then [] else [r])
    ensures Fresh(ckpt, rs + [r]) == Fresh(ckpt, rs) + (if r.seqNo <= ckpt then [] else [r])
  {
    assert (rs + [r])[..|rs|] == rs;
  }

  /** Outside a batch the whole sequence is valid. */
  lemma {:induction false} ClosedIsValid(ckpt: nat, rs: seq<Record>)
    ensures !Fold(ckpt, rs).inBatch ==> Fold(ckpt, rs).valid == |rs|
  {
    if rs != [] {
      ClosedIsValid(ckpt, rs[..|rs| - 1]);
    }
  }

  lemma FoldFlags(c: nat, rs: seq<Record>, r: Record)
    ensures var st, st' := Fold(c, rs), Fold(c, rs + [r]);
      && st'.inBatch == (r.op == OP_BEGIN || (r.op != OP_COMMIT && st.inBatch))
      && st'.clean == (st.clean && (r.op == OP_BEGIN ==> !st.inBatch))
  {
    hide Fold;
    FoldPush(c, rs, r);
  }

  /** Cutting off old records neither opens a batch nor nests one: a reclaim may cut a batch. */
  lemma {:induction false} DropKeepsClosed(c: nat, c': nat, rs: seq<Record>, k: nat)
    requires k <= |rs|
    ensures Fold(c', rs[k..]).inBatch ==> Fold(c, rs).inBatch
    ensures Fold(c, rs).clean ==> Fold(c', rs[k..]).clean
    decreases |rs|
  {
    hide Fold;
    if k < |rs| {
      var n := |rs| - 1;
      DropKeepsClosed(c, c', rs[..n], k);
      assert rs[k..] == rs[..n][k..] + [rs[n]] && rs == rs[..n] + [rs[n]];
      FoldFlags(c', rs[..n][k..], rs[n]);
      FoldFlags(c, rs[..n], rs[n]);
    } else {
      assert rs[k..] == [];
      EmptyFold(c');
    }
  }

  lemma EmptyFold(c: nat)
    ensures !Fold(c, []).inBatch && Fold(c, []).clean
  {
  }

  ghost predicate InOrder(ckpt: nat, st: Replay, rs: seq<Record>) {
    && st.applied + Fresh(ckpt, st.buf) == Fresh(ckpt, Rows(rs))
    && (!st.inBatch ==> st.buf == [])
  }

  lemma MarkInOrder(ckpt: nat, st: Replay, rs: seq<Record>, r: Record)
    requires InOrder(ckpt, st, rs) && IsMark(r) && (r.op == OP_BEGIN ==> !st.inBatch)
    ensures InOrder(ckpt, ReplayStep(ckpt, st, |rs| + 1, r), rs + [r])
  {
    hide Fold;
    FoldPush(ckpt, rs, r);
    assert Rows(rs + [r]) == Rows(rs);
    assert Fresh(ckpt, []) == [];
    var st' := ReplayStep(ckpt, st, |rs| + 1, r);
    assert st'.applied == st.applied + Fresh(ckpt, st.buf) && st'.buf == [];
    assert st'.applied + [] == st'.applied;
  }

  lemma FreshOne(ckpt: nat, r: Record)
    ensures Fresh(ckpt, []) == []
    ensures Fresh(ckpt, [r]) == if r.seqNo <= ckpt then [] else [r]
  {
    FoldPush(ckpt, [], r);
    assert [] + [r] == [r];
  }

  lemma RowInOrder(ckpt: nat, st: Replay, rs: seq<Record>, r: Record)
    requires InOrder(ckpt, st, rs) && !IsMark(r)
    ensures InOrder(ckpt, ReplayStep(ckpt, st, |rs| + 1, r), rs + [r])
  {
    hide Fold, Fresh, Rows;
    FreshOne(ckpt, r);
    FoldPush(ckpt, rs, r);
    FoldPush(ckpt, Rows(rs), r);
    var f := Fresh(ckpt, [r]);
    var x := st.applied;
    assert Fresh(ckpt, Rows(rs + [r])) == Fresh(ckpt, Rows(rs)) + f;
    if st.inBatch {
      FoldPush(ckpt, st.buf, r);
      assert x + (Fresh(ckpt, st.buf) + f) == x + Fresh(ckpt, st.buf) + f;
    } else {
      assert x + [] == x && (x + f) + [] == x + f;
    }
  }

  /** Recovery hands over exactly the rows past the checkpoint, each once, in log order. */
  lemma {:induction false} AppliedInOrder(ckpt: nat, rs: seq<Record>)
    requires Fold(ckpt, rs).clean
    ensures InOrder(ckpt, Fold(ckpt, rs), rs)
  {
    if rs != [] {
      var n := |rs| - 1;
      assert rs == rs[..n] + [rs[n]];
      FoldPush(ckpt, rs[..n], rs[n]);
      AppliedInOrder(ckpt, rs[..n]);
      if IsMark(rs[n]) {
        MarkInOrder(ckpt, Fold(ckpt, rs[..n]), rs[..n], rs[n]);
      } else {
        RowInOrder(ckpt, Fold(ckpt, rs[..n]), rs[..n], rs[n]);
      }
    }
  }

  // ---- the state machine ----

  /** Who appended a record: a single write (or DDL), or a batch attempt. */
  datatype Tag = Lone | Member(batch: nat)

  datatype Pc = Idle | LoneAppended | InBatch(batch: nat) | Sealed | Stuck | Down | Rewound

  /** sealed: batch attempts whose COMMIT was appended; used: all batch attempts so far. */
  datatype Sys = Sys(rs: seq<Record>, tags: seq<Tag>, tailSeq: nat, ckpt: nat, committed: nat,
                     sealed: set<nat>, used: set<nat>, pc: Pc)

  function HeadSeq(s: Sys): nat {
    s.tailSeq + |s.rs|
  }

  predicate IsInit(s: Sys) {
    s == Sys([], [], 1, 0, 0, {}, {}, Idle)
  }

  function Push(s: Sys, r: Record, t: Tag): Sys {
    s.(rs := s.rs + [r], tags := s.tags + [t])
  }

  function ValidEnd(s: Sys): nat {
    var v := Fold(s.ckpt, s.rs).valid;
    if v == 0 then 0 else s.rs[v - 1].seqNo
  }

  /** Recovery: keep the valid prefix, move the head back behind it, publish its end. */
  function Recovered(s: Sys): Sys
    requires |s.tags| == |s.rs|
  {
    var v := Fold(s.ckpt, s.rs).valid;
    s.(rs := s.rs[..v], tags := s.tags[..v],
       committed := if ValidEnd(s) > s.ckpt then ValidEnd(s) else s.ckpt, pc := Idle)
  }

  datatype Act =
    | AppendLone(r: Record) | AppendBegin(r: Record, batch: nat) | AppendRow(r: Record)
    | AppendCommit(r: Record) | MarkCommitted | Flush | Reclaim(k: nat)
    | Fail | Crash | Rewind | Publish

  predicate Enabled(s: Sys, a: Act) {
    |s.tags| == |s.rs| &&
    match a
    case AppendLone(r) => s.pc == Idle && r.seqNo == HeadSeq(s) && !IsMark(r)
    case AppendBegin(r, b) => s.pc == Idle && r.seqNo == HeadSeq(s) && r.op == OP_BEGIN && b !in s.used
    case AppendRow(r) => s.pc.InBatch? && r.seqNo == HeadSeq(s) && !IsMark(r)
    case AppendCommit(r) => s.pc.InBatch? && r.seqNo == HeadSeq(s) && r.op == OP_COMMIT
    case MarkCommitted => (s.pc == LoneAppended || s.pc == Sealed) && HeadSeq(s) >= 1
    case Flush => true
    case Reclaim(k) => k <= |s.rs| && s.tailSeq + k <= s.ckpt + 1
    case Fail => s.pc != Down
    case Crash => true
    case Rewind => s.pc == Down
    case Publish => s.pc == Rewound && HeadSeq(s) >= 1
  }

  function Do(s: Sys, a: Act): Sys
    requires Enabled(s, a)
  {
    match a
    case AppendLone(r) => Push(s, r, Lone).(pc := LoneAppended)
    case AppendBegin(r, b) => Push(s, r, Member(b)).(pc := InBatch(b), used := s.used + {b})
    case AppendRow(r) => Push(s, r, Member(s.pc.batch))
    case AppendCommit(r) => Push(s, r, Member(s.pc.batch)).(pc := Sealed, sealed := s.sealed + {s.pc.batch})
    case MarkCommitted => s.(committed := HeadSeq(s) - 1, pc := Idle)
    case Flush => s.(ckpt := if s.ckpt < s.committed then s.committed else s.ckpt)
    case Reclaim(k) => s.(rs := s.rs[k..], tags := s.tags[k..], tailSeq := s.tailSeq + k)
    case Fail => s.(pc := Stuck)
    case Crash => s.(pc := Down)
    case Rewind => var v := Fold(s.ckpt, s.rs).valid; s.(rs := s.rs[..v], tags := s.tags[..v], pc := Rewound)
    case Publish => s.(committed := if HeadSeq(s) - 1 > s.ckpt then HeadSeq(s) - 1 else s.ckpt, pc := Idle)
  }

  // ---- the invariant ----

  /** How many retained records are committed. */
  function Covered(s: Sys): int {
    s.committed + 1 - s.tailSeq
  }

  /** The records behind the committed ones. */
  datatype Rest = Nothing | OneLone | Open(batch: nat) | Done(batch: nat)

  predicate RestIs(q: seq<Record>, ts: seq<Tag>, sealed: set<nat>, k: Rest)
    requires |q| == |ts|
  {
    match k
    case Nothing => q == []
    case OneLone => |q| == 1 && !IsMark(q[0]) && ts[0] == Lone
    case Open(b) =>
      && |q| >= 1 && q[0].op == OP_BEGIN && b !in sealed
      && (forall i :: 0 <= i < |ts| ==> ts[i] == Member(b))
      && (forall i :: 1 <= i < |q| ==> !IsMark(q[i]))
    case Done(b) =>
      && |q| >= 2 && q[0].op == OP_BEGIN && b in sealed
      && (forall i :: 0 <= i < |ts| ==> ts[i] == Member(b))
      && (forall i :: 1 <= i < |q| - 1 ==> !IsMark(q[i])) && q[|q| - 1].op == OP_COMMIT
  }

  predicate PcFits(pc: Pc, k: Rest) {
    match pc
    case Idle => k == Nothing
    case LoneAppended => k == OneLone
    case InBatch(b) => k == Open(b)
    case Sealed => k.Done?
    case Stuck => true
    case Down => true
    case Rewound => !k.Open?
  }

  predicate Delivers(t: Tag, sealed: set<nat>) {
    t.Lone? || t.batch in sealed
  }

  predicate Counters(s: Sys) {
    && 1 <= s.tailSeq <= s.ckpt + 1
    && s.ckpt <= s.committed < HeadSeq(s)
  }

  predicate Numbering(rs: seq<Record>, first: nat) {
    forall i :: 0 <= i < |rs| ==> rs[i].seqNo == first + i
  }

  ghost predicate Inv(s: Sys) {
    && |s.tags| == |s.rs|
    && Numbering(s.rs, s.tailSeq)
    && Counters(s)
    && !Fold(0, s.rs[..Covered(s)]).inBatch && Fold(0, s.rs[..Covered(s)]).clean
    && (forall i :: 0 <= i < Covered(s) ==> Delivers(s.tags[i], s.sealed))
    && s.sealed <= s.used
    && (forall t :: t in s.tags && t.Member? ==> t.batch in s.used)
    && exists k :: PcFits(s.pc, k) && RestIs(s.rs[Covered(s)..], s.tags[Covered(s)..], s.sealed, k)
  }

  /** Whether a batch is open, and the nesting, do not depend on the checkpoint. */
  lemma {:induction false} FoldAnyCheckpoint(c: nat, c': nat, rs: seq<Record>)
    ensures Fold(c, rs).inBatch == Fold(c', rs).inBatch && Fold(c, rs).clean == Fold(c', rs).clean
    ensures Fold(c, rs).valid == Fold(c', rs).valid
  {
    if rs != [] {
      FoldAnyCheckpoint(c, c', rs[..|rs| - 1]);
    }
  }

  lemma {:induction false} FoldRows(c: nat, p: seq<Record>, q: seq<Record>)
    requires forall i :: 0 <= i < |q| ==> !IsMark(q[i])
    ensures var st, st' := Fold(c, p), Fold(c, p + q);
      && st'.inBatch == st.inBatch && st'.clean == st.clean
      && st'.valid == if st.inBatch then st.valid else if q == [] then st.valid else |p + q|
    decreases |q|
  {
    if q == [] {
      assert p + q == p;
    } else {
      var n := |q| - 1;
      FoldRows(c, p, q[..n]);
      assert p + q == (p + q[..n]) + [q[n]];
      FoldPush(c, p + q[..n], q[n]);
    }
  }

  lemma FoldOpen(c: nat, p: seq<Record>, q: seq<Record>)
    requires |q| >= 1 && q[0].op == OP_BEGIN && (forall i :: 1 <= i < |q| ==> !IsMark(q[i]))
    requires !Fold(c, p).inBatch && Fold(c, p).clean
    ensures Fold(c, p + q).clean && Fold(c, p + q).inBatch && Fold(c, p + q).valid == |p|
  {
    hide Fold;
    ClosedIsValid(c, p);
    FoldPush(c, p, q[0]);
    assert p + q == (p + [q[0]]) + q[1..];
    FoldRows(c, p + [q[0]], q[1..]);
  }

  lemma FoldDone(c: nat, p: seq<Record>, q: seq<Record>)
    requires |q| >= 2 && q[0].op == OP_BEGIN && (forall i :: 1 <= i < |q| - 1 ==> !IsMark(q[i]))
    requires q[|q| - 1].op == OP_COMMIT
    requires !Fold(c, p).inBatch && Fold(c, p).clean
    ensures Fold(c, p + q).clean && !Fold(c, p + q).inBatch && Fold(c, p + q).valid == |p + q|
  {
    hide Fold;
    var n := |q| - 1;
    FoldOpen(c, p, q[..n]);
    assert p + q == (p + q[..n]) + [q[n]];
    FoldPush(c, p + q[..n], q[n]);
  }

  /** What recovery makes of the committed records p and each shape of rest. */
  lemma FoldRest(c: nat, p: seq<Record>, q: seq<Record>, ts: seq<Tag>, sealed: set<nat>, k: Rest)
    requires |q| == |ts| && RestIs(q, ts, sealed, k)
    requires !Fold(c, p).inBatch && Fold(c, p).clean
    ensures Fold(c, p + q).clean
    ensures Fold(c, p + q).inBatch <==> k.Open?
    ensures Fold(c, p + q).valid == if k.Open? then |p| else |p + q|
  {
    hide Fold;
    match k
    case Nothing =>
      ClosedIsValid(c, p);
      assert p + q == p;
    case OneLone =>
      assert q == [q[0]];
      FoldPush(c, p, q[0]);
    case Open(_) => FoldOpen(c, p, q);
    case Done(_) => FoldDone(c, p, q);
  }

  // ---- every step keeps the invariant ----

  lemma {:induction false} FoldSplit(s: Sys, k: Rest)
    requires Inv(s) && RestIs(s.rs[Covered(s)..], s.tags[Covered(s)..], s.sealed, k)
    ensures Fold(s.ckpt, s.rs).clean
    ensures Fold(s.ckpt, s.rs).valid == if k.Open? then Covered(s) else |s.rs|
  {
    var p := Covered(s);
    FoldAnyCheckpoint(0, s.ckpt, s.rs[..p]);
    assert s.rs == s.rs[..p] + s.rs[p..];
    FoldRest(s.ckpt, s.rs[..p], s.rs[p..], s.tags[p..], s.sealed, k);
  }

  /** Every record up to a valid end belongs to a single write or a sealed batch. */
  lemma ValidDelivers(s: Sys, k: Rest)
    requires Inv(s) && RestIs(s.rs[Covered(s)..], s.tags[Covered(s)..], s.sealed, k) && !k.Open?
    ensures forall i :: 0 <= i < |s.rs| ==> Delivers(s.tags[i], s.sealed)
  {
    hide Fold;
    var p := Covered(s);
    forall i | 0 <= i < |s.rs| ensures Delivers(s.tags[i], s.sealed) {
      if i >= p {
        assert s.tags[i] == s.tags[p..][i - p];
      }
    }
  }

  /** The whole of a log without an open batch is closed. */
  lemma ValidClosed(s: Sys, k: Rest)
    requires Inv(s) && RestIs(s.rs[Covered(s)..], s.tags[Covered(s)..], s.sealed, k) && !k.Open?
    ensures !Fold(0, s.rs).inBatch && Fold(0, s.rs).clean
  {
    var p := Covered(s);
    assert s.rs == s.rs[..p] + s.rs[p..];
    FoldRest(0, s.rs[..p], s.rs[p..], s.tags[p..], s.sealed, k);
  }

  /** A log whose first v records are closed and deliverable, committed up to there, is idle. */
  lemma CommitKeeps(s: Sys, s': Sys, v: nat)
    requires Inv(s) && v <= |s.rs| && s.tailSeq + v >= s.committed + 1
    requires s'.rs == s.rs[..v] && s'.tags == s.tags[..v] && s'.tailSeq == s.tailSeq && s'.ckpt == s.ckpt
    requires s'.committed == s.tailSeq + v - 1 && s'.sealed == s.sealed && s'.used == s.used && s'.pc == Idle
    requires !Fold(0, s.rs[..v]).inBatch && Fold(0, s.rs[..v]).clean
    requires forall i :: 0 <= i < v ==> Delivers(s.tags[i], s.sealed)
    ensures Inv(s')
  {
    hide Fold;
    assert Covered(s') == v && s'.rs[..v] == s.rs[..v];
    assert RestIs(s'.rs[v..], s'.tags[v..], s'.sealed, Nothing);
    assert forall t :: t in s'.tags ==> t in s.tags;
  }

  /** Recovery's first step: the head moves back behind the valid prefix. Nothing is published yet. */
  lemma RewindStepKeeps(s: Sys)
    requires Inv(s) && Enabled(s, Rewind)
    ensures Inv(Do(s, Rewind))
  {
    hide Fold;
    var p := Covered(s);
    var k :| PcFits(s.pc, k) && RestIs(s.rs[p..], s.tags[p..], s.sealed, k);
    FoldSplit(s, k);
    var v := Fold(s.ckpt, s.rs).valid;
    var s' := Do(s, Rewind);
    if k.Open? {
      assert s'.rs[..p] == s.rs[..p];
      assert RestIs(s'.rs[p..], s'.tags[p..], s'.sealed, Nothing);
      assert forall t :: t in s'.tags ==> t in s.tags;
    } else {
      assert s'.rs == s.rs && s'.tags == s.tags;
    }
  }

  /** Its second step: the end of what is left becomes the committed number. */
  lemma PublishKeeps(s: Sys)
    requires Inv(s) && Enabled(s, Publish)
    ensures Inv(Do(s, Publish)) && Do(s, Publish).committed == HeadSeq(s) - 1 >= s.committed
  {
    hide Fold;
    var p := Covered(s);
    var k :| PcFits(s.pc, k) && RestIs(s.rs[p..], s.tags[p..], s.sealed, k);
    ValidDelivers(s, k);
    ValidClosed(s, k);
    assert s.rs[..|s.rs|] == s.rs && s.tags[..|s.rs|] == s.tags;
    CommitKeeps(s, Do(s, Publish), |s.rs|);
  }

  /** Both steps, without a crash between them, are what recovery is for. */
  lemma RecoverSteps(s: Sys)
    requires Inv(s) && s.pc == Down
    ensures Enabled(s, Rewind) && Enabled(Do(s, Rewind), Publish) && Do(Do(s, Rewind), Publish) == Recovered(s)
    ensures Inv(Recovered(s)) && HeadSeq(Recovered(s)) == Recovered(s).committed + 1
    ensures Recovered(s).committed >= s.committed
  {
    hide Fold, RestIs;
    RewindStepKeeps(s);
    var s1 := Do(s, Rewind);
    PublishKeeps(s1);
    var v := Fold(s.ckpt, s.rs).valid;
    assert v > 0 ==> s.rs[v - 1].seqNo == HeadSeq(s1) - 1;
  }

  lemma ReclaimKeeps(s: Sys, k: nat)
    requires Inv(s) && Enabled(s, Reclaim(k))
    ensures Inv(Do(s, Reclaim(k)))
  {
    var s' := Do(s, Reclaim(k));
    var p := Covered(s);
    assert Covered(s') == p - k;
    DropKeepsClosed(0, 0, s.rs[..p], k);
    assert s'.rs[..p - k] == s.rs[..p][k..];
    assert s'.rs[p - k..] == s.rs[p..] && s'.tags[p - k..] == s.tags[p..];
  }

  /** An append extends the rest; what the rest becomes is for the caller to say. */
  lemma PushKeeps(s: Sys, s': Sys, r: Record, t: Tag, k': Rest)
    requires Inv(s) && r.seqNo == HeadSeq(s)
    requires s'.rs == s.rs + [r] && s'.tags == s.tags + [t] && s'.tailSeq == s.tailSeq
    requires s'.ckpt == s.ckpt && s'.committed == s.committed
    requires s.sealed <= s'.sealed <= s'.used && s.used <= s'.used && (t.Member? ==> t.batch in s'.used)
    requires var p := Covered(s); PcFits(s'.pc, k') && RestIs(s.rs[p..] + [r], s.tags[p..] + [t], s'.sealed, k')
    ensures Inv(s')
  {
    hide Fold, RestIs, PcFits;
    var p := Covered(s);
    assert s'.rs[..p] == s.rs[..p];
    assert s'.rs[p..] == s.rs[p..] + [r];
    assert s'.tags[p..] == s.tags[p..] + [t];
  }

  lemma AppendLoneKeeps(s: Sys, r: Record)
    requires Inv(s) && Enabled(s, AppendLone(r))
    ensures Inv(Do(s, AppendLone(r)))
  {
    hide Fold;
    PushKeeps(s, Do(s, AppendLone(r)), r, Lone, OneLone);
  }

  lemma AppendBeginKeeps(s: Sys, r: Record, b: nat)
    requires Inv(s) && Enabled(s, AppendBegin(r, b))
    ensures Inv(Do(s, AppendBegin(r, b)))
  {
    hide Fold;
    PushKeeps(s, Do(s, AppendBegin(r, b)), r, Member(b), Open(b));
  }

  lemma AppendRowKeeps(s: Sys, r: Record)
    requires Inv(s) && Enabled(s, AppendRow(r))
    ensures Inv(Do(s, AppendRow(r)))
  {
    hide Fold;
    assert RestIs(s.rs[Covered(s)..], s.tags[Covered(s)..], s.sealed, Open(s.pc.batch));
    OpenBatchUsed(s);
    PushKeeps(s, Do(s, AppendRow(r)), r, Member(s.pc.batch), Open(s.pc.batch));
  }

  lemma OpenBatchUsed(s: Sys)
    requires Inv(s) && s.pc.InBatch?
    ensures s.pc.batch in s.used
  {
    hide Fold;
    var p := Covered(s);
    assert RestIs(s.rs[p..], s.tags[p..], s.sealed, Open(s.pc.batch));
    assert s.tags[p..][0] == s.tags[p] && s.tags[p] in s.tags;
  }

  lemma AppendCommitKeeps(s: Sys, r: Record)
    requires Inv(s) && Enabled(s, AppendCommit(r))
    ensures Inv(Do(s, AppendCommit(r)))
  {
    hide Fold;
    var p := Covered(s);
    var b := s.pc.batch;
    OpenBatchUsed(s);
    assert RestIs(s.rs[p..], s.tags[p..], s.sealed, Open(b));
    assert RestIs(s.rs[p..] + [r], s.tags[p..] + [Member(b)], s.sealed + {b}, Done(b));
    PushKeeps(s, Do(s, AppendCommit(r)), r, Member(b), Done(b));
  }

  lemma MarkKeeps(s: Sys)
    requires Inv(s) && Enabled(s, MarkCommitted)
    ensures Inv(Do(s, MarkCommitted))
  {
    hide Fold;
    var p := Covered(s);
    var k :| PcFits(s.pc, k) && RestIs(s.rs[p..], s.tags[p..], s.sealed, k);
    ValidDelivers(s, k);
    ValidClosed(s, k);
    assert s.rs[..|s.rs|] == s.rs && s.tags[..|s.rs|] == s.tags;
    CommitKeeps(s, Do(s, MarkCommitted), |s.rs|);
  }

  /** Every step of the protocol keeps the invariant. */
  lemma StepKeeps(s: Sys, a: Act)
    requires Inv(s) && Enabled(s, a)
    ensures Inv(Do(s, a))
  {
    match a
    case AppendLone(r) => AppendLoneKeeps(s, r);
    case AppendBegin(r, b) => AppendBeginKeeps(s, r, b);
    case AppendRow(r) => AppendRowKeeps(s, r);
    case AppendCommit(r) => AppendCommitKeeps(s, r);
    case Reclaim(k) => ReclaimKeeps(s, k);
    case MarkCommitted => MarkKeeps(s);
    case Rewind => RewindStepKeeps(s);
    case Publish => PublishKeeps(s);
    case _ => QuietKeeps(s, a);
  }

  lemma QuietKeeps(s: Sys, a: Act)
    requires Inv(s) && Enabled(s, a) && (a == Flush || a == Fail || a == Crash)
    ensures Inv(Do(s, a))
  {
    hide Fold;
    var k :| PcFits(s.pc, k) && RestIs(s.rs[Covered(s)..], s.tags[Covered(s)..], s.sealed, k);
    assert PcFits(Do(s, a).pc, k);
  }

  // ---- whole runs ----

  ghost predicate IsRun(s: Sys, acts: seq<Act>, s': Sys)
    decreases |acts|
  {
    if acts == [] then s' == s else Enabled(s, acts[0]) && IsRun(Do(s, acts[0]), acts[1..], s')
  }

  lemma {:induction false} RunKeeps(s: Sys, acts: seq<Act>, s': Sys)
    requires Inv(s) && IsRun(s, acts, s')
    ensures Inv(s')
    decreases |acts|
  {
    hide Inv, Do, Enabled;
    if acts != [] {
      StepKeeps(s, acts[0]);
      RunKeeps(Do(s, acts[0]), acts[1..], s');
    }
  }

  lemma InitHolds(s: Sys)
    requires IsInit(s)
    ensures Inv(s)
  {
    assert RestIs(s.rs[0..], s.tags[0..], s.sealed, Nothing);
  }

  lemma InvCounts(s: Sys)
    requires Inv(s)
    ensures |s.tags| == |s.rs| && Counters(s) && Numbering(s.rs, s.tailSeq)
    ensures s.pc == Idle ==> s.committed == HeadSeq(s) - 1
  {
    hide Fold;
    if s.pc == Idle {
      assert RestIs(s.rs[Covered(s)..], s.tags[Covered(s)..], s.sealed, Nothing);
    }
  }

  ghost predicate Safe(s: Sys) {
    && s.tailSeq <= s.ckpt + 1 && s.ckpt <= s.committed < HeadSeq(s)
    && |s.tags| == |s.rs|
    && forall i :: 0 <= i < |s.rs| && s.rs[i].seqNo <= s.committed ==> Delivers(s.tags[i], s.sealed)
  }

  lemma InvSafe(s: Sys)
    requires Inv(s)
    ensures Safe(s)
  {
    hide Fold, RestIs;
    forall i | 0 <= i < |s.rs| && s.rs[i].seqNo <= s.committed ensures Delivers(s.tags[i], s.sealed) {
      assert s.rs[i].seqNo == s.tailSeq + i && i < Covered(s);
    }
  }

  /** Safety over whole runs: whatever writes, batches, flushes, reclaims, failures, crashes and
      recoveries came before, every retained record up to committed_seq was written alone or by a
      batch whose COMMIT was appended, and the three watermarks keep their order. */
  lemma RunSafe(s: Sys, acts: seq<Act>, s': Sys)
    requires IsInit(s) && IsRun(s, acts, s')
    ensures Safe(s')
  {
    hide Fold, Do, Enabled, Inv, Safe;
    InitHolds(s);
    RunKeeps(s, acts, s');
    InvSafe(s');
  }

  /** What is committed stays what it is: no later step changes, drops or renumbers a committed record, except
      that a reclaim takes the oldest ones out of the window. */
  ghost predicate KeepsCommitted(s: Sys, s': Sys) {
    && s.committed <= s'.committed && s.tailSeq <= s'.tailSeq
    && forall n {:trigger SameRecord(s, s', n)} :: s'.tailSeq <= n <= s.committed ==> SameRecord(s, s', n)
  }

  predicate SameRecord(s: Sys, s': Sys, n: nat) {
    && s.tailSeq <= n < HeadSeq(s) && s'.tailSeq <= n < HeadSeq(s')
    && s'.rs[n - s'.tailSeq] == s.rs[n - s.tailSeq]
  }

  lemma StepKeepsCommitted(s: Sys, a: Act)
    requires Inv(s) && Enabled(s, a)
    ensures KeepsCommitted(s, Do(s, a))
  {
    hide Fold, RestIs, Inv, IsMark;
    InvCounts(s);
    StepKeeps(s, a);
    InvCounts(Do(s, a));
    if a == Rewind { RewindCovers(s); }
  }

  lemma RewindCovers(s: Sys)
    requires Inv(s)
    ensures Fold(s.ckpt, s.rs).valid >= Covered(s)
  {
    hide Fold;
    var k :| PcFits(s.pc, k) && RestIs(s.rs[Covered(s)..], s.tags[Covered(s)..], s.sealed, k);
    FoldSplit(s, k);
  }

  /** `log` is every record ever committed, oldest first. */
  ghost predicate Logged(s: Sys, log: seq<Record>) {
    |log| == s.committed && s.tailSeq >= 1 && Covered(s) <= |s.rs|
    && forall i :: 0 <= i < Covered(s) ==> log[s.tailSeq - 1 + i] == s.rs[i]
  }

  lemma LogStep(s: Sys, s': Sys, log: seq<Record>) returns (log': seq<Record>)
    requires Logged(s, log) && KeepsCommitted(s, s') && Counters(s) && Counters(s') && s'.tailSeq <= s.committed + 1
    ensures log <= log' && Logged(s', log')
  {
    var more := s'.rs[s.committed + 1 - s'.tailSeq..Covered(s')];
    log' := log + more;
    forall i | 0 <= i < Covered(s') ensures log'[s'.tailSeq - 1 + i] == s'.rs[i] {
      var n := s'.tailSeq + i;
      if n <= s.committed {
        assert SameRecord(s, s', n) && log'[n - 1] == log[s.tailSeq - 1 + (n - s.tailSeq)] == s.rs[n - s.tailSeq];
      } else {
        assert log'[n - 1] == more[n - 1 - s.committed];
      }
    }
  }

  lemma StepLogs(s: Sys, log: seq<Record>, a: Act) returns (log': seq<Record>)
    requires Inv(s) && Enabled(s, a) && Logged(s, log)
    ensures log <= log' && Logged(Do(s, a), log')
  {
    hide Fold, RestIs, Inv, Logged, KeepsCommitted;
    InvCounts(s);
    StepKeeps(s, a);
    InvCounts(Do(s, a));
    StepKeepsCommitted(s, a);
    log' := LogStep(s, Do(s, a), log);
  }

  /** The committed log only grows, over whole runs with crashes and recoveries: whoever looks at it sees a prefix
      of what it will be. */
  lemma {:induction false} RunLogs(s: Sys, log: seq<Record>, acts: seq<Act>, s': Sys) returns (log': seq<Record>)
    requires Inv(s) && IsRun(s, acts, s') && Logged(s, log)
    ensures log <= log' && Logged(s', log')
    decreases |acts|
  {
    hide Inv, Do, Enabled, Logged;
    log' := log;
    if acts != [] {
      StepKeeps(s, acts[0]);
      log' := StepLogs(s, log, acts[0]);
      log' := RunLogs(Do(s, acts[0]), log', acts[1..], s');
    }
  }

  ghost predicate Abandoned(s: Sys, b: nat) {
    b in s.used && b !in s.sealed && s.pc != InBatch(b)
  }

  lemma {:induction false} AbandonedStays(s: Sys, acts: seq<Act>, s': Sys, b: nat)
    requires Abandoned(s, b) && IsRun(s, acts, s')
    ensures Abandoned(s', b)
    decreases |acts|
  {
    hide Fold;
    if acts != [] {
      AbandonedStays(Do(s, acts[0]), acts[1..], s', b);
    }
  }

  /** A batch that failed or crashed before its COMMIT is never delivered, although recovery gives
      its sequence numbers to later records. */
  lemma AbandonedNeverDelivered(s: Sys, acts: seq<Act>, s': Sys, b: nat)
    requires Inv(s) && Abandoned(s, b) && IsRun(s, acts, s')
    ensures |s'.tags| == |s'.rs|
    ensures forall i :: 0 <= i < |s'.rs| && s'.rs[i].seqNo <= s'.committed ==> s'.tags[i] != Member(b)
  {
    hide Fold, Do, Enabled, Inv;
    RunKeeps(s, acts, s');
    AbandonedStays(s, acts, s', b);
    InvSafe(s');
  }

  /** Recovery after a crash inside batch b drops exactly that batch and hands over, in order,
      the rows of everything else past the checkpoint. */
  lemma RecoverDropsBatch(s: Sys, b: nat)
    requires Inv(s) && RestIs(s.rs[Covered(s)..], s.tags[Covered(s)..], s.sealed, Open(b))
    ensures Recovered(s).rs == s.rs[..Covered(s)]
    ensures Recovered(s).committed == s.committed
    ensures Fold(s.ckpt, s.rs).applied == Fold(s.ckpt, s.rs[..Covered(s)]).applied
    ensures Fold(s.ckpt, s.rs).applied == Fresh(s.ckpt, Rows(s.rs[..Covered(s)]))
  {
    hide Fold, Fresh, Rows;
    var p := Covered(s);
    FoldSplit(s, Open(b));
    var q := s.rs[p..];
    assert s.rs == (s.rs[..p] + [q[0]]) + q[1..];
    FoldAnyCheckpoint(0, s.ckpt, s.rs[..p]);
    AppliedInOrder(s.ckpt, s.rs[..p]);
    FoldPush(s.ckpt, s.rs[..p], q[0]);
    FreshOne(s.ckpt, q[0]);
    RowsBuffered(s.ckpt, s.rs[..p] + [q[0]], q[1..]);
    var x := Fold(s.ckpt, s.rs[..p]).applied;
    assert x + [] == x;
  }

  /** A recovery that crashed behind its rewind hands over the same rows when it runs again. */
  lemma RecoverAgain(s: Sys)
    requires Inv(s) && s.pc == Down
    ensures Fold(s.ckpt, Do(s, Rewind).rs).applied == Fold(s.ckpt, s.rs).applied
  {
    hide Fold;
    var p := Covered(s);
    var k :| PcFits(s.pc, k) && RestIs(s.rs[p..], s.tags[p..], s.sealed, k);
    FoldSplit(s, k);
    if k.Open? {
      RecoverDropsBatch(s, k.batch);
    } else {
      assert s.rs[..|s.rs|] == s.rs;
    }
  }

  lemma {:induction false} RowsBuffered(c: nat, p: seq<Record>, q: seq<Record>)
    requires Fold(c, p).inBatch && forall i :: 0 <= i < |q| ==> !IsMark(q[i])
    ensures Fold(c, p + q).applied == Fold(c, p).applied && Fold(c, p + q).inBatch
    decreases |q|
  {
    hide Fold;
    if q == [] {
      assert p + q == p;
    } else {
      var n := |q| - 1;
      RowsBuffered(c, p, q[..n]);
      assert p + q == (p + q[..n]) + [q[n]];
      FoldPush(c, p + q[..n], q[n]);
    }
  }
}
