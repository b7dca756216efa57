/** The engine's write path and recovery over the ring object (engine.cpp:272-416 and 1359-1416,
    wal_ring.cpp:480-609). Every method is a run of the protocol's state machine, wherever the
    process is stopped; a crash is a return at a chosen point: before anything, when room has been made,
    or behind any record. */
module WalEngine {
  import opened LittleEndian
  import opened Errors
  import opened WalFormat
  import opened WalImage
  import opened WalScan
  import opened WalBatch
  import opened WalProtocol
  import opened WalRing

  /** One staged row operation as it goes to the log. */
  datatype RowOp = RowOp(op: byte, tableId: u64, rowNo: u64, rowVer: u64, payload: seq<byte>)

  predicate RowOpOk(o: RowOp) {
    o.op == OP_INSERT || o.op == OP_UPDATE || o.op == OP_DELETE
  }

  function RowBytes(rows: seq<RowOp>): nat {
    if rows == [] then 0 else RecordBytes(|rows[0].payload|) + RowBytes(rows[1..])
  }

  class Engine {
    const ring: Ring
    var committed: nat
    var checkpoint: nat
    var batchInProgress: bool
    ghost var tags: seq<Tag>
    ghost var sealed: set<nat>
    ghost var used: set<nat>
    ghost var pc: Pc

    ghost function Abs(): Sys
      reads this, ring
    {
      Sys(ring.Retained(), tags, ring.tailSeq, checkpoint, committed, sealed, used, pc)
    }

    ghost predicate Valid()
      reads this, ring, ring.area
    {
      ring.Valid() && Inv(Abs()) && ring.headSeq == HeadSeq(Abs())
    }

    constructor (r: Ring)
      requires r.Valid() && r.Retained() == [] && r.headSeq == 1
      ensures Valid() && IsInit(Abs()) && ring == r && !batchInProgress
    {
      hide Holds, FramingOf, Fold, Inv;
      ring := r;
      committed, checkpoint, batchInProgress := 0, 0, false;
      tags, sealed, used, pc := [], {}, {}, Idle;
      new;
      SlotCount(ring.Fr(), ring.Img(), ring.slots);
      InitHolds(Abs());
    }

    /** Nothing is left to reclaim: no committed record is retained, or the ring is too small even when empty. */
    ghost predicate UsedUp(bytes: nat)
      reads this, ring
    {
      ring.tailSeq > committed || bytes > ring.area.Length
    }

    /** Flush, advance the checkpoint, reclaim what it covers; never inside a batch. */
    method EnsureRingSpace(recBytes: nat, flushOk: bool) returns (e: Err, ghost acts: seq<Act>)
      requires Valid()
      modifies this`checkpoint, this`tags, ring`tailSeq, ring`tailPos, ring`slots
      ensures Valid() && IsRun(old(Abs()), acts, Abs())
      ensures e == Ok <==> ring.HasRoom(recBytes)
      ensures old(ring.HasRoom(recBytes)) ==> e == Ok && Abs() == old(Abs()) && ring.Img() == old(ring.Img())
      ensures !old(ring.HasRoom(recBytes)) && batchInProgress ==> e == LimitExceeded && Abs() == old(Abs())
      ensures e == Ok || e == LimitExceeded || e == IoError
      ensures e == IoError <==> !old(ring.HasRoom(recBytes)) && !batchInProgress && !flushOk
      ensures e == IoError ==> Abs() == old(Abs()) && ring.Img() == old(ring.Img())
      ensures e == LimitExceeded && !batchInProgress ==> UsedUp(recBytes)
      ensures acts == [] || exists k: nat :: acts == [Flush, Reclaim(k)]
    {
      hide Holds, FramingOf, Inv, HasRoomFor;
      acts := [];
      if ring.HasRoom(recBytes) {
        return Ok, [];
      }
      if batchInProgress {
        return LimitExceeded, [];
      }
      if !flushOk {
        return IoError, [];
      }
      var covered := committed;
      ghost var s0 := Abs();
      InvCounts(s0);
      if checkpoint < covered {
        checkpoint := covered;
      }
      ghost var s1 := Abs();
      assert s1 == Do(s0, Flush);
      StepKeeps(s0, Flush);
      var safe := if checkpoint > covered then checkpoint else covered;
      SlotCount(ring.Fr(), ring.Img(), ring.slots);
      ghost var k: nat;
      e, k := ring.ReclaimForRecord(recBytes, safe);
      tags := tags[k..];
      assert Abs() == Do(s1, Reclaim(k));
      StepKeeps(s1, Reclaim(k));
      SlotCount(ring.Fr(), ring.Img(), ring.slots);
      acts := [Flush, Reclaim(k)];
      TwoSteps(s0, Flush, Reclaim(k));
    }

    /** The ring call of an append, with what it means to the protocol. */
    method LogRecord(o: RowOp, ts: u64, ghost kind: Kind) returns (overlapped: bool, ghost a: Act)
      requires Valid() && ring.headSeq < TWO64 && KindFits(pc, used, o.op, kind)
      requires ring.HasRoom(RecordBytes(|o.payload|)) && !ring.poisoned
      modifies this`tags, this`sealed, this`used, this`pc, ring`headSeq, ring`headPos, ring`slots, ring.area
      ensures overlapped <==> !old(EmptyFits(ring.Img(), RecordBytes(|o.payload|)))
      ensures !overlapped ==> Valid()
      ensures old(Enabled(Abs(), a)) && Abs() == Do(old(Abs()), a)
      ensures pc == PcAfter(old(pc), kind) && used == UsedAfter(old(used), kind)
      ensures ring.headSeq == old(ring.headSeq) + 1
      ensures ring.Img() == AppendImage(ring.Fr(), old(ring.Img()), RecordOf(o, old(ring.headSeq), ts))
      ensures ring.Retained() == old(ring.Retained()) + [RecordOf(o, old(ring.headSeq), ts)]
    {
      hide Holds, FramingOf, Inv, HasRoomFor, Fold;
      ghost var s := Abs();
      InvCounts(s);
      a := ActOf(kind, RecordOf(o, ring.headSeq, ts));
      overlapped := !EmptyFits(ring.Img(), RecordBytes(|o.payload|));
      var _, _ := ring.Append(o.op, o.tableId, o.rowNo, o.rowVer, ts, o.payload);
      tags := tags + [TagOf(pc, kind)];
      sealed := if kind.KCommit? then sealed + {pc.batch} else sealed;
      used := UsedAfter(used, kind);
      pc := PcAfter(pc, kind);
      StepKeeps(s, a);
      if !overlapped {
        SlotCount(ring.Fr(), ring.Img(), ring.slots);
      }
    }

    /** Append one record, making room for it first. Refused appends change nothing but what a
        flush and a reclaim may change; overlapped flags the one admitted append that is unsound. */
    method WalAppend(o: RowOp, ts: u64, flushOk: bool, ghost kind: Kind)
      returns (e: Err, overlapped: bool, ghost acts: seq<Act>)
      requires Valid() && ring.headSeq < TWO64 && KindFits(pc, used, o.op, kind)
      modifies this`checkpoint, this`tags, this`sealed, this`used, this`pc, ring, ring.area
      ensures IsRun(old(Abs()), acts, Abs()) && (!overlapped ==> Valid())
      ensures e != Ok ==> !overlapped && pc == old(pc) && used == old(used) && ring.headSeq == old(ring.headSeq)
      ensures e == Ok ==> pc == PcAfter(old(pc), kind) && used == UsedAfter(old(used), kind)
      ensures e == Ok ==> ring.headSeq == old(ring.headSeq) + 1 && ring.poisoned == old(ring.poisoned)
      ensures e == Ok ==>
        Extends(old(ring.Retained()), ring.Retained(), [RecordOf(o, old(ring.headSeq), ts)])
      ensures e == Poisoned <==> old(ring.poisoned)
      ensures e == IoError <==>
        !old(ring.poisoned) && !old(ring.HasRoom(RecordBytes(|o.payload|))) && !batchInProgress && !flushOk
      ensures e == Ok || e == Poisoned || e == IoError || e == LimitExceeded
      ensures e == LimitExceeded ==> (batchInProgress || UsedUp(RecordBytes(|o.payload|)))
      ensures e != Ok ==> ring.poisoned == (old(ring.poisoned) || e == IoError)
      ensures batchInProgress ==>
        (e == Ok <==> old(ring.HasRoom(RecordBytes(|o.payload|)) && !ring.poisoned))
      ensures old(ring.HasRoom(RecordBytes(|o.payload|)) && !ring.poisoned) ==>
        && e == Ok
        && (overlapped <==> !EmptyFits(old(ring.Img()), RecordBytes(|o.payload|)))
        && ring.Img() == AppendImage(ring.Fr(), old(ring.Img()), RecordOf(o, old(ring.headSeq), ts))
        && ring.Retained() == old(ring.Retained()) + [RecordOf(o, old(ring.headSeq), ts)]
    {
      hide Holds, FramingOf, Inv, HasRoomFor, Fold, EmptyFits, AppendImage, IsRun, Do, Enabled, Extends;
      ghost var s0 := Abs();
      if ring.poisoned {
        NoSteps(s0);
        return Poisoned, false, [];
      }
      e, acts := EnsureRingSpace(RecordBytes(|o.payload|), flushOk);
      if e != Ok {
        if e != LimitExceeded {
          ring.poisoned := true;
        }
        return e, false, acts;
      }
      ghost var s1 := Abs();
      RunSuffix(s0, acts, s1);
      ExtendsBy(s0.rs, s1.rs, [RecordOf(o, ring.headSeq, ts)]);
      ghost var a: Act;
      overlapped, a := LogRecord(o, ts, kind);
      OneStep(s1, a);
      RunTrans(s0, acts, s1, [a], Abs());
      acts := acts + [a];
    }

    /** Before a batch's first record: room for the whole batch, or no batch. */
    method ReserveBatchWal(totalBytes: nat, flushOk: bool) returns (e: Err, ghost acts: seq<Act>)
      requires Valid() && pc == Idle && !batchInProgress
      modifies this`checkpoint, this`tags, this`batchInProgress, ring`tailSeq, ring`tailPos, ring`slots, ring`poisoned
      ensures Valid() && IsRun(old(Abs()), acts, Abs()) && pc == Idle
      ensures e == Ok <==> batchInProgress
      ensures e == Ok ==> ring.HasRoom(totalBytes) && !ring.poisoned
      ensures Extends(old(ring.Retained()), ring.Retained(), [])
      ensures e == Poisoned <==> old(ring.poisoned)
      ensures e == IoError <==>
        !old(ring.poisoned) && totalBytes <= ring.area.Length && !old(ring.HasRoom(totalBytes)) && !flushOk
      ensures e == Ok || e == Poisoned || e == IoError || e == LimitExceeded
      ensures e == LimitExceeded ==> UsedUp(totalBytes)
      ensures e != Ok ==> ring.poisoned == (old(ring.poisoned) || e == IoError)
      ensures !old(ring.poisoned) && old(ring.HasRoom(totalBytes)) ==>
        e == Ok && Abs() == old(Abs()) && ring.Img() == old(ring.Img())
      ensures totalBytes > ring.area.Length && !old(ring.poisoned) ==>
        e == LimitExceeded && Abs() == old(Abs()) && ring.poisoned == old(ring.poisoned)
    {
      hide Holds, FramingOf, Inv, Fold, IsRun, Extends, Do, Enabled, HasRoomFor;
      ghost var s := Abs();
      NoSteps(s);
      RunSuffix(s, [], s);
      RoomWithin(ring.Img(), totalBytes);
      if ring.poisoned {
        return Poisoned, [];
      }
      if totalBytes > ring.area.Length {
        return LimitExceeded, [];
      }
      e, acts := EnsureRingSpace(totalBytes, flushOk);
      RunSuffix(s, acts, Abs());
      if e != Ok {
        if e != LimitExceeded {
          ring.poisoned := true;
        }
        return;
      }
      batchInProgress := true;
    }

    method MarkCommitted()
      requires Valid() && (pc == LoneAppended || pc == Sealed)
      modifies this`committed, this`pc
      ensures Valid() && old(Enabled(Abs(), Act.MarkCommitted)) && Abs() == Do(old(Abs()), Act.MarkCommitted)
      ensures pc == Idle && committed == ring.headSeq - 1
    {
      hide Holds, FramingOf, Inv, Fold;
      InvCounts(Abs());
      StepKeeps(Abs(), Act.MarkCommitted);
      committed := ring.headSeq - 1;
      pc := Idle;
    }

    /** A failure behind a record that is already in the log: no more writes. */
    method Poison()
      requires Valid() && pc != Down
      modifies ring`poisoned, this`pc
      ensures ring.poisoned && Valid() && old(Enabled(Abs(), Fail)) && Abs() == Do(old(Abs()), Fail) && pc == Stuck
    {
      hide Holds, FramingOf, Inv, Fold;
      InvCounts(Abs());
      StepKeeps(Abs(), Fail);
      ring.poisoned := true;
      pc := Stuck;
    }

    /** The process is gone; what it left in the image is what recovery finds. */
    ghost method Die()
      requires Valid()
      modifies this`pc
      ensures Valid() && old(Enabled(Abs(), Crash)) && Abs() == Do(old(Abs()), Crash) && pc == Down
    {
      hide Holds, FramingOf, Inv, Fold;
      InvCounts(Abs());
      StepKeeps(Abs(), Crash);
      pc := Down;
    }

    /** One record of a batch. */
    method LogNext(ops: seq<RowOp>, i: nat, ts: u64, flushOk: bool, ghost b: nat, ghost fits: bool)
      returns (e: Err, overlapped: bool, ghost acts: seq<Act>)
      requires Valid() && BatchShape(ops) && i < |ops| && pc == PcInBatch(ops, i, b) && (i == 0 ==> b !in used)
      requires batchInProgress && !ring.poisoned && ring.headSeq < TWO64
      requires fits ==> RoomLeft(ring.Img(), RowBytes(ops[i..]))
      modifies this`checkpoint, this`tags, this`sealed, this`used, this`pc, ring, ring.area
      ensures e == Ok <==> old(ring.HasRoom(RecordBytes(|ops[i].payload|)))
      ensures fits ==> e == Ok && !overlapped && RoomLeft(ring.Img(), RowBytes(ops[i + 1..]))
      ensures IsRun(old(Abs()), acts, Abs()) && (!overlapped ==> Valid())
      ensures e != Ok ==> !overlapped && pc == old(pc) && ring.headSeq == old(ring.headSeq)
      ensures e == Ok ==> pc == PcInBatch(ops, i + 1, b) && ring.headSeq == old(ring.headSeq) + 1
      ensures !ring.poisoned
      ensures e == Ok ==> ring.Retained() == old(ring.Retained()) + [RecordOf(ops[i], old(ring.headSeq), ts)]
    {
      hide Holds, FramingOf, Inv, Fold, HasRoomFor, EmptyFits, AppendImage, IsRun, Do, Enabled, RowBytes, RoomLeft,
        Extends;
      ghost var g, ss := ring.Img(), ring.slots;
      RowBytesStep(ops, i);
      if fits {
        RoomLeftStep(ring.Fr(), g, ss, RowBytes(ops[i..]), RecordOf(ops[i], ring.headSeq, ts));
      }
      e, overlapped, acts := WalAppend(ops[i], ts, flushOk, KindAt(ops, i, b));
    }

    /** The log phase of a batch: every record in turn until one is refused or the process stops. */
    method LogBatch(ops: seq<RowOp>, ts: u64, flushOk: bool, crashAt: nat, ghost b: nat)
      returns (e: Err, done: nat, overlapped: bool, ghost acts: seq<Act>)
      requires Valid() && pc == Idle && batchInProgress && !ring.poisoned && b !in used
      requires BatchShape(ops) && ring.headSeq + |ops| < TWO64
      requires ring.HasRoom(RowBytes(ops))
      modifies this`checkpoint, this`tags, this`sealed, this`used, this`pc, ring, ring.area
      ensures IsRun(old(Abs()), acts, Abs()) && (!overlapped ==> Valid())
      ensures e != Ok || overlapped ==> !EmptyFits(old(ring.Img()), RowBytes(ops))
      ensures done <= |ops| && (!overlapped && e == Ok && done < |ops| ==> done == crashAt)
      ensures (e != Ok ==> done > 0) && (done == crashAt || crashAt > done) && !ring.poisoned
      ensures !overlapped ==> pc == PcInBatch(ops, done, b)
      ensures !overlapped ==> ring.headSeq == old(ring.headSeq) + done
      ensures !overlapped && e == Ok ==>
        ring.Retained() == old(ring.Retained()) + RecordsOf(ops[..done], old(ring.headSeq), ts)
    {
      hide Holds, FramingOf, Inv, Fold, HasRoomFor, EmptyFits, AppendImage, IsRun, Do, Enabled, RowBytes, RoomLeft,
        Extends, RecordsOf, BatchShape;
      ghost var s0, g0, base, first := Abs(), ring.Img(), ring.Retained(), ring.headSeq;
      NoSteps(s0);
      assert ops[0..] == ops && base + [] == base;
      NoRecords(ops, first, ts);
      FirstHasRoom(g0, ops);
      RoomForSum(g0, RowBytes(ops));
      e, done, overlapped, acts := Ok, 0, false, [];
      while done < |ops| && done != crashAt
        invariant done <= |ops| && Valid() && IsRun(s0, acts, Abs()) && batchInProgress && !ring.poisoned
        invariant done == 0 ==> b !in used
        invariant pc == PcInBatch(ops, done, b)
        invariant ring.headSeq == first + done
        invariant ring.Retained() == base + RecordsOf(ops[..done], first, ts)
        invariant EmptyFits(g0, RowBytes(ops)) ==> RoomLeft(ring.Img(), RowBytes(ops[done..]))
        invariant e == Ok && !overlapped && done <= crashAt
        invariant done == 0 ==> ring.HasRoom(RecordBytes(|ops[0].payload|))
      {
        ghost var s := Abs();
        ghost var more;
        e, overlapped, more := LogNext(ops, done, ts, flushOk, b, EmptyFits(g0, RowBytes(ops)));
        RunTrans(s0, acts, s, more, Abs());
        acts := acts + more;
        if e != Ok || overlapped {
          return;
        }
        RecordsOfPush(ops, done, first, ts);
        done := done + 1;
      }
    }

    /** A batch: reserve, BEGIN, rows, COMMIT, apply, publish; stopped for good after crashAt ring
        calls. Whatever happens is a run of the protocol. Once the reservation has succeeded on a
        ring where the batch fits, no append fails or overlaps. */
    method ExecuteBatch(rows: seq<RowOp>, ts: u64, flushOk: bool, applyOk: bool, crashAt: nat, ghost b: nat)
      returns (r: Outcome, ghost reserved: Image, ghost acts: seq<Act>)
      requires Valid() && pc == Idle && !batchInProgress && b !in used
      requires ring.headSeq + |rows| + 2 < TWO64 && forall o :: o in rows ==> RowOpOk(o)
      modifies this, ring, ring.area
      ensures IsRun(old(Abs()), acts, Abs()) && !batchInProgress
      ensures r != Overlapped ==> Valid() && pc == PcAt(r)
      ensures r.Broken? || r == Overlapped ==> !EmptyFits(reserved, BatchBytes(rows))
      ensures r.Refused? ==> ring.headSeq == old(ring.headSeq)
      ensures r == Refused(InvalidArgument) <==> rows == []
      ensures r == Refused(Poisoned) <==> rows != [] && old(ring.poisoned)
      ensures r == Refused(LimitExceeded) ==> UsedUp(BatchBytes(rows))
      ensures r.Refused? ==> r.e == InvalidArgument || r.e == Poisoned || r.e == LimitExceeded || r.e == IoError
      ensures r == Refused(IoError) ==> !flushOk && !old(ring.HasRoom(BatchBytes(rows)))
      ensures rows != [] && !old(ring.poisoned) && old(ring.HasRoom(BatchBytes(rows))) ==>
        !r.Refused? && reserved == old(ring.Img())
      ensures !r.Refused? && EmptyFits(reserved, BatchBytes(rows)) ==>
        r == (if crashAt <= |rows| + 2 then Crashed else if applyOk then Published else NotApplied)
      ensures (r == Published ==> applyOk) && (r == NotApplied ==> !applyOk)
      ensures r == Published ==> committed == old(ring.headSeq) + |rows| + 1
      ensures r != Published ==> committed == old(committed)
      ensures (r == Published ==> !ring.poisoned) && (r == NotApplied || r.Broken? ==> ring.poisoned)
      ensures r.Refused? ==> ring.poisoned == (old(ring.poisoned) || r == Refused(IoError))
      ensures r == Published || r == NotApplied ==>
        Extends(old(ring.Retained()), ring.Retained(), BatchRecords(rows, old(ring.headSeq), ts))
    {
      hide Holds, FramingOf, Inv, Fold, HasRoomFor, EmptyFits, AppendImage, RowBytes, RecordsOf, IsRun, Do, Enabled,
        Extends, BatchShape, BatchOps;
      ghost var s0 := Abs();
      if rows == [] {
        NoSteps(s0);
        return Refused(InvalidArgument), ring.Img(), [];
      }
      var ops := BatchOps(rows);
      BatchOpsShape(rows);
      var e;
      e, acts := ReserveBatchWal(RowBytes(ops), flushOk);
      reserved := ring.Img();
      if e != Ok {
        return Refused(e), reserved, acts;
      }
      ghost var s1, more := Abs(), [];
      ExtendsBy(s0.rs, s1.rs, BatchRecords(rows, ring.headSeq, ts));
      r, more := LogAndEnd(ops, ts, flushOk, applyOk, crashAt, b);
      RunTrans(s0, acts, s1, more, Abs());
      acts := acts + more;
    }

    /** The batch once its room is reserved. */
    method LogAndEnd(ops: seq<RowOp>, ts: u64, flushOk: bool, applyOk: bool, crashAt: nat, ghost b: nat)
      returns (r: Outcome, ghost acts: seq<Act>)
      requires Valid() && pc == Idle && batchInProgress && !ring.poisoned && b !in used
      requires BatchShape(ops) && ring.headSeq + |ops| < TWO64
      requires ring.HasRoom(RowBytes(ops))
      modifies this, ring, ring.area
      ensures IsRun(old(Abs()), acts, Abs()) && !batchInProgress && !r.Refused?
      ensures r != Overlapped ==> Valid() && pc == PcAt(r)
      ensures r.Broken? || r == Overlapped ==> !EmptyFits(old(ring.Img()), RowBytes(ops))
      ensures EmptyFits(old(ring.Img()), RowBytes(ops)) ==>
        r == (if crashAt <= |ops| then Crashed else if applyOk then Published else NotApplied)
      ensures (r == Published ==> applyOk) && (r == NotApplied ==> !applyOk)
      ensures r == Published ==> committed == ring.headSeq - 1
      ensures r != Published ==> committed == old(committed)
      ensures (r == Published ==> !ring.poisoned) && (r == NotApplied || r.Broken? ==> ring.poisoned)
      ensures r == Published || r == NotApplied ==>
        && ring.headSeq == old(ring.headSeq) + |ops|
        && ring.Retained() == old(ring.Retained()) + RecordsOf(ops, old(ring.headSeq), ts)
    {
      hide Holds, FramingOf, Inv, Fold, HasRoomFor, EmptyFits, RowBytes, RecordsOf, IsRun, Do, Enabled, BatchShape;
      assert |ops| > 0 by { ShapeNonempty(ops); }
      assert ops[..|ops|] == ops;
      ghost var s0 := Abs();
      var e, done, overlapped;
      e, done, overlapped, acts := LogBatch(ops, ts, flushOk, crashAt, b);
      batchInProgress := false;
      if overlapped {
        return Overlapped, acts;
      }
      r, acts := EndBatch(e, done, |ops|, done == crashAt, applyOk, s0, acts);
    }

    /** What follows the log phase: a failure behind the BEGIN poisons, a crash stops everything, a complete
        batch is applied and published. */
    method EndBatch(e: Err, done: nat, n: nat, stopped: bool, applyOk: bool, ghost s0: Sys, ghost steps: seq<Act>)
      returns (r: Outcome, ghost acts: seq<Act>)
      requires Valid() && IsRun(s0, steps, Abs()) && done <= n && n > 0 && (e == Ok && !stopped ==> done == n)
      requires if done == 0 then pc == Idle else if done < n then pc.InBatch? else pc == Sealed
      modifies this`committed, this`pc, ring`poisoned
      ensures IsRun(s0, acts, Abs()) && Valid() && pc == PcAt(r) && r != Overlapped
      ensures r.Broken? || r.Refused? ==> e != Ok
      ensures r.Refused? ==> done == 0
      ensures r == (if e != Ok then (if done == 0 then Refused(e) else Broken(e))
                    else if stopped then Crashed else if applyOk then Published else NotApplied)
      ensures r != Published ==> committed == old(committed)
      ensures ring.poisoned == (old(ring.poisoned) || r == NotApplied || r.Broken?)
      ensures r == Published ==> committed == ring.headSeq - 1
    {
      hide Holds, FramingOf, Inv, Fold, IsRun, Do, Enabled;
      ghost var s := Abs();
      acts := steps;
      if e != Ok {
        if done == 0 { return Refused(e), acts; }
        Poison();
        acts := Then(s0, steps, s, Fail);
        return Broken(e), acts;
      }
      if stopped {
        Die();
        acts := Then(s0, steps, s, Crash);
        return Crashed, acts;
      }
      if !applyOk {
        Poison();
        acts := Then(s0, steps, s, Fail);
        return NotApplied, acts;
      }
      MarkCommitted();
      acts := Then(s0, steps, s, Act.MarkCommitted);
      return Published, acts;
    }

    predicate FitsNow(bytes: nat)
      requires ring.Valid()
      reads ring, ring.area
    {
      ring.HasRoom(bytes) && EmptyFits(ring.Img(), bytes)
    }

    /** A single write: log, apply, publish. */
    method WriteOne(o: RowOp, ts: u64, flushOk: bool, applyOk: bool, crashAt: nat)
      returns (r: Outcome, ghost acts: seq<Act>)
      requires Valid() && pc == Idle && !batchInProgress && ring.headSeq < TWO64 && RowOpOk(o)
      modifies this, ring, ring.area
      ensures IsRun(old(Abs()), acts, Abs()) && batchInProgress == old(batchInProgress)
      ensures r != Overlapped ==> Valid() && pc == PcAt(r) && !r.Broken?
      ensures r.Refused? ==> ring.headSeq == old(ring.headSeq)
      ensures r == Refused(Poisoned) <==> crashAt > 0 && old(ring.poisoned)
      ensures r == Refused(LimitExceeded) ==> UsedUp(RecordBytes(|o.payload|))
      ensures r == Refused(IoError) ==> !flushOk && !old(ring.HasRoom(RecordBytes(|o.payload|)))
      ensures r.Refused? ==> r.e == Poisoned || r.e == LimitExceeded || r.e == IoError
      ensures !old(ring.poisoned) && old(FitsNow(RecordBytes(|o.payload|))) ==>
        r == (if crashAt <= 2 then Crashed else if applyOk then Published else NotApplied)
      ensures (r == Published ==> applyOk) && (r == NotApplied ==> !applyOk)
      ensures r == Published ==> committed == old(ring.headSeq)
      ensures r != Published ==> committed == old(committed)
      ensures (r == Published ==> !ring.poisoned) && (r == NotApplied ==> ring.poisoned)
      ensures r == Published || r == NotApplied ==>
        Extends(old(ring.Retained()), ring.Retained(), [RecordOf(o, old(ring.headSeq), ts)])
    {
      hide Holds, FramingOf, Inv, Fold, HasRoomFor, EmptyFits, AppendImage, IsRun, Do, Enabled, Extends;
      ghost var s0 := Abs();
      NoSteps(s0);
      if crashAt == 0 {
        Die();
        acts := Then(s0, [], s0, Crash);
        return Crashed, acts;
      }
      var e, overlapped;
      if crashAt == 1 && !ring.poisoned {
        e, acts := EnsureRingSpace(RecordBytes(|o.payload|), flushOk);
        ghost var made := Abs();
        Die();
        acts := Then(s0, acts, made, Crash);
        return Crashed, acts;
      }
      e, overlapped, acts := WalAppend(o, ts, flushOk, KLone);
      ghost var s1 := Abs();
      if e != Ok {
        return Refused(e), acts;
      }
      if overlapped {
        return Overlapped, acts;
      }
      if crashAt == 2 {
        Die();
        acts := Then(s0, acts, s1, Crash);
        return Crashed, acts;
      }
      if !applyOk {
        Poison();
        acts := Then(s0, acts, s1, Fail);
        return NotApplied, acts;
      }
      MarkCommitted();
      acts := Then(s0, acts, s1, Act.MarkCommitted);
      return Published, acts;
    }

    /** Recovery: scan, filter batches, hand over the rows past the checkpoint, move the head back
        behind the valid prefix, publish its end; stopped for good before or behind the rewind. */
    method ReplayWal(crashAt: nat) returns (e: Err, applied: seq<Record>, finished: bool, ghost acts: seq<Act>)
      requires Valid() && pc == Down
      modifies this`tags, this`committed, this`pc, ring`headSeq, ring`headPos, ring`slots
      ensures e == Ok && Valid() && IsRun(old(Abs()), acts, Abs())
      ensures applied == Fold(checkpoint, old(ring.Retained())).applied
      ensures finished <==> crashAt > 1
      ensures !finished ==> pc == Down && committed == old(committed)
      ensures finished ==>
        && Abs() == Recovered(old(Abs())) && committed >= old(committed)
        && ring.headSeq == committed + 1
    {
      hide Holds, FramingOf, Inv, Fold, ScanFrom, IsRun, Do, Enabled;
      ghost var s := Abs();
      ghost var rs := ring.Retained();
      ghost var v := Fold(checkpoint, rs).valid;
      InvCounts(s);
      NoSteps(s);
      ScanExact(ring.crc, ring.Img(), ring.slots);
      var views, _ := ring.ScanValid();
      assert Recs(views) == rs;
      var validEnd, validEndPos, prefixExists;
      applied, validEnd, validEndPos, prefixExists := ReplayFilter(views);
      if crashAt == 0 {
        return Ok, applied, false, [];
      }
      e, finished, acts := FinishReplay(validEnd, validEndPos, prefixExists, v, crashAt == 1);
    }

    /** The rewind and, unless the process stops between them, the publication. */
    method FinishReplay(validEnd: nat, validEndPos: nat, prefixExists: bool, ghost v: nat, stopped: bool)
      returns (e: Err, finished: bool, ghost acts: seq<Act>)
      requires Valid() && pc == Down && v == Fold(checkpoint, ring.Retained()).valid
      requires v <= |ring.slots| && (prefixExists <==> v > 0)
      requires validEnd == if v > 0 then ring.tailSeq + v - 1 else 0
      requires v > 0 ==> validEndPos == Norm(ring.area.Length, EndOf(ring.slots[v - 1]))
      modifies this`tags, this`committed, this`pc, ring`headSeq, ring`headPos, ring`slots
      ensures e == Ok && Valid() && IsRun(old(Abs()), acts, Abs()) && finished == !stopped
      ensures !finished ==> pc == Down && committed == old(committed)
      ensures finished ==> Abs() == Recovered(old(Abs()))
      ensures finished ==> committed >= old(committed) && ring.headSeq == committed + 1
    {
      hide Holds, FramingOf, Inv, Fold, IsRun, Do, Enabled;
      ghost var s := Abs();
      InvCounts(s);
      RecoverSteps(s);
      RewindStepKeeps(s);
      e := RewindTo(validEnd, validEndPos, prefixExists, v);
      tags := tags[..v];
      pc := Rewound;
      assert ring.Retained() == s.rs[..v];
      RewindIs(s, v, Abs());
      OneStep(s, Rewind);
      if stopped {
        Die();
        acts := Then(s, [Rewind], Do(s, Rewind), Crash);
        return e, false, acts;
      }
      committed := if validEnd > checkpoint then validEnd else checkpoint;
      pc := Idle;
      assert Abs() == Recovered(s);
      acts := Then(s, [Rewind], Do(s, Rewind), Publish);
      finished := true;
    }

    lemma RewindIs(s: Sys, v: nat, t: Sys)
      requires |s.tags| == |s.rs| && v == Fold(s.ckpt, s.rs).valid && s.pc == Down
      requires t == s.(rs := s.rs[..v], tags := s.tags[..v], pc := Rewound)
      ensures Enabled(s, Rewind) && t == Do(s, Rewind)
    {
    }

    /** Moves the head back behind the valid prefix of v records, or to the tail if there is none. */
    method RewindTo(validEnd: nat, validEndPos: nat, prefixExists: bool, ghost v: nat) returns (e: Err)
      requires ring.Valid() && v <= |ring.slots| && (prefixExists <==> v > 0)
      requires validEnd == if v > 0 then ring.tailSeq + v - 1 else 0
      requires v > 0 ==> validEndPos == Norm(ring.area.Length, EndOf(ring.slots[v - 1]))
      modifies ring`headSeq, ring`headPos, ring`slots
      ensures e == Ok && ring.Valid()
      ensures ring.slots == old(ring.slots)[..v] && ring.headSeq == ring.tailSeq + v
    {
      hide Holds, FramingOf;
      SlotCount(ring.Fr(), ring.Img(), ring.slots);
      if ring.headSeq > validEnd + 1 {
        if prefixExists {
          e := ring.RewindHeadAfterReplay(validEnd + 1, validEndPos);
        } else {
          ring.RewindHeadToTail();
          e := Ok;
        }
      } else {
        assert ring.slots[..v] == ring.slots;
        e := Ok;
      }
    }

    /** The loop of recovery over what the scan delivered: batches are held back until their
        COMMIT, and an unfinished one leaves the valid prefix where it was before its BEGIN. */
    method ReplayFilter(views: seq<View>)
      returns (applied: seq<Record>, validEnd: nat, validEndPos: nat, prefixExists: bool)
      ensures var st := Fold(checkpoint, Recs(views));
        && applied == st.applied
        && (prefixExists <==> st.valid > 0)
        && validEnd == (if st.valid == 0 then 0 else views[st.valid - 1].rec.seqNo)
        && (st.valid > 0 ==> validEndPos == views[st.valid - 1].endPos)
    {
      hide Fold, Fresh, Recs;
      ghost var rs, st := Recs(views), Replay(false, [], [], 0, true);
      FoldNothing(checkpoint);
      assert rs[..0] == [];
      var inBatch, buf := false, [];
      applied, validEnd, validEndPos, prefixExists := [], 0, 0, false;
      var endBefore, posBefore, existsBefore := 0, 0, false;
      var i := 0;
      while i < |views|
        invariant i <= |views| && st == Fold(checkpoint, rs[..i]) && st.valid <= i
        invariant inBatch == st.inBatch && buf == st.buf && applied == st.applied
        invariant prefixExists <==> st.valid > 0
        invariant validEnd == if st.valid == 0 then 0 else views[st.valid - 1].rec.seqNo
        invariant st.valid > 0 ==> validEndPos == views[st.valid - 1].endPos
        invariant inBatch ==> endBefore == validEnd && posBefore == validEndPos && existsBefore == prefixExists
      {
        var r := views[i].rec;
        assert rs[..i + 1] == rs[..i] + [r];
        FoldPush(checkpoint, rs[..i], r);
        st := ReplayStep(checkpoint, st, i + 1, r);
        if r.op == OP_BEGIN {
          inBatch, buf := true, [];
          endBefore, posBefore, existsBefore := validEnd, validEndPos, prefixExists;
        } else if r.op == OP_COMMIT {
          var given := ApplyAll(buf);
          applied, buf, inBatch := applied + given, [], false;
          validEnd, validEndPos, prefixExists := r.seqNo, views[i].endPos, true;
        } else if inBatch {
          buf := buf + [r];
        } else {
          var given := ApplyAll([r]);
          applied := applied + given;
          validEnd, validEndPos, prefixExists := r.seqNo, views[i].endPos, true;
        }
        i := i + 1;
      }
      assert rs[..|views|] == rs;
      if inBatch {
        validEnd, validEndPos, prefixExists := endBefore, posBefore, existsBefore;
      }
    }

    /** Hands records to the stores, skipping those the checkpoint covers. */
    method ApplyAll(rs: seq<Record>) returns (given: seq<Record>)
      ensures given == Fresh(checkpoint, rs)
    {
      given := [];
      var i := 0;
      while i < |rs|
        invariant i <= |rs| && given == Fresh(checkpoint, rs[..i])
      {
        assert rs[..i + 1] == rs[..i] + [rs[i]];
        FoldPush(checkpoint, rs[..i], rs[i]);
        if rs[i].seqNo > checkpoint {
          given := given + [rs[i]];
        }
        i := i + 1;
      }
      assert rs[..|rs|] == rs;
    }

    /** One fetch of a subscriber at lo: the scan up to committed_seq. Nothing of an unfinished or
        abandoned batch comes out, nothing is skipped, and falling behind the window is reported. */
    method FetchCommitted(lo: nat, budget: Budget) returns (recs: seq<Record>, status: Err, last: nat)
      requires Valid()
      ensures status == (if lo < committed && lo + 1 < ring.tailSeq then CursorOverflow else Ok)
      ensures status != Ok ==> recs == []
      ensures lo <= last && last == lo + |recs|
      ensures forall j :: 0 <= j < |recs| ==> DeliveredAt(Abs(), lo, recs[j], j)
      ensures status == Ok && last < committed ==> Charge(budget, recs) >= budget.limit
    {
      hide Holds, FramingOf, Inv, Fold, WalScan.ScanRange, Deliver;
      ghost var s := Abs();
      ghost var vs := Views(ring.area.Length, ring.slots);
      InvCounts(s);
      InvSafe(s);
      RangeExact(ring.crc, ring.Img(), ring.slots, lo, committed, budget);
      recs, status, last := ring.ScanRange(lo, committed, budget);
      assert forall i :: 0 <= i < |vs| ==> vs[i].rec == s.rs[i] && vs[i].rec.seqNo == s.tailSeq + i;
      DeliverWithin(vs, lo, committed, budget, 0, s.tailSeq);
      NothingWanted(vs, lo, committed, budget);
      if lo < committed && lo + 1 >= s.tailSeq {
        DeliverStops(vs, lo, committed, budget, 0, s.tailSeq);
      }
      forall j | 0 <= j < |recs| ensures DeliveredAt(s, lo, recs[j], j) {
        WindowDelivers(s, vs, lo, recs[j], j);
      }
      if recs != [] {
        assert DeliveredAt(s, lo, recs[|recs| - 1], |recs| - 1);
      }
    }
  }

  /** Record x is the j-th record after lo, retained, committed, and of no unfinished batch. */
  ghost predicate DeliveredAt(s: Sys, lo: nat, x: Record, j: nat) {
    && x.seqNo == lo + 1 + j && x.seqNo <= s.committed
    && s.tailSeq <= x.seqNo < s.tailSeq + |s.rs| && |s.tags| == |s.rs|
    && x == s.rs[x.seqNo - s.tailSeq] && Delivers(s.tags[x.seqNo - s.tailSeq], s.sealed)
  }

  lemma WindowDelivers(s: Sys, vs: seq<View>, lo: nat, x: Record, j: nat)
    requires InWindow(vs, lo, s.committed, s.tailSeq, x, j) && lo + 1 >= s.tailSeq
    requires |vs| == |s.rs| == |s.tags| && Safe(s) && Numbering(s.rs, s.tailSeq)
    requires forall i :: 0 <= i < |vs| ==> vs[i].rec == s.rs[i]
    ensures DeliveredAt(s, lo, x, j)
  {
  }

  lemma NothingWanted(vs: seq<View>, lo: nat, hi: nat, b: Budget)
    ensures hi <= lo ==> Deliver(vs, lo, hi, b, 0) == []
  {
    if hi <= lo {
      DeliverNothing(vs, lo, hi, b, 0);
    }
  }

  ghost predicate BatchShape(ops: seq<RowOp>) {
    && |ops| >= 2 && ops[0].op == OP_BEGIN && ops[|ops| - 1].op == OP_COMMIT
    && forall i :: 1 <= i < |ops| - 1 ==> RowOpOk(ops[i])
  }

  lemma ShapeNonempty(ops: seq<RowOp>)
    requires BatchShape(ops)
    ensures |ops| > 0
  {
  }

  /** The first record of a batch has room where the whole batch has. */
  lemma FirstHasRoom(g: Image, ops: seq<RowOp>)
    requires Shape(g) && BatchShape(ops) && HasRoomFor(g, RowBytes(ops))
    ensures |ops| > 0 && HasRoomFor(g, RecordBytes(|ops[0].payload|))
  {
  }

  lemma RoomWithin(g: Image, bytes: nat)
    requires Shape(g)
    ensures HasRoomFor(g, bytes) ==> bytes <= |g.area|
  {
  }

  lemma BatchOpsShape(rows: seq<RowOp>)
    requires forall o :: o in rows ==> RowOpOk(o)
    ensures BatchShape(BatchOps(rows)) && |BatchOps(rows)| == |rows| + 2
  {
  }

  ghost function PcInBatch(ops: seq<RowOp>, i: nat, b: nat): Pc {
    if i == 0 then Idle else if i < |ops| then InBatch(b) else Sealed
  }

  ghost function KindAt(ops: seq<RowOp>, i: nat, b: nat): Kind {
    if i == 0 then KBegin(b) else if i == |ops| - 1 then KCommit else KRow
  }

  ghost function Then(s: Sys, acts: seq<Act>, t: Sys, a: Act): (r: seq<Act>)
    requires IsRun(s, acts, t) && Enabled(t, a)
    ensures IsRun(s, r, Do(t, a))
  {
    OneStep(t, a);
    RunTrans(s, acts, t, [a], Do(t, a));
    acts + [a]
  }

  function Recs(vs: seq<View>): (rs: seq<Record>)
    ensures |rs| == |vs| && forall i :: 0 <= i < |vs| ==> rs[i] == vs[i].rec
  {
    seq(|vs|, i requires 0 <= i < |vs| => vs[i].rec)
  }

  datatype Outcome = Refused(e: Err) | Broken(e: Err) | Overlapped | Crashed | NotApplied | Published

  function PcAt(r: Outcome): Pc {
    match r
    case Refused(_) => Idle
    case Broken(_) => Stuck
    case Overlapped => Stuck
    case Crashed => Down
    case NotApplied => Stuck
    case Published => Idle
  }

  /** What is retained now is a suffix of what was, and the new records. */
  ghost predicate Extends(was: seq<Record>, now: seq<Record>, added: seq<Record>) {
    exists k :: 0 <= k <= |was| && now == was[k..] + added
  }

  // ---- what an append means to the protocol ----

  datatype Kind = KLone | KBegin(batch: nat) | KRow | KCommit

  predicate KindFits(pc: Pc, used: set<nat>, op: byte, kind: Kind) {
    op != OP_PAD &&
    match kind
    case KLone => pc == Idle && op != OP_BEGIN && op != OP_COMMIT
    case KBegin(b) => pc == Idle && op == OP_BEGIN && b !in used
    case KRow => pc.InBatch? && op != OP_BEGIN && op != OP_COMMIT
    case KCommit => pc.InBatch? && op == OP_COMMIT
  }

  function ActOf(kind: Kind, r: Record): Act {
    match kind
    case KLone => AppendLone(r)
    case KBegin(b) => AppendBegin(r, b)
    case KRow => AppendRow(r)
    case KCommit => AppendCommit(r)
  }

  function TagOf(pc: Pc, kind: Kind): Tag
    requires kind.KRow? || kind.KCommit? ==> pc.InBatch?
  {
    match kind
    case KLone => Lone
    case KBegin(b) => Member(b)
    case KRow => Member(pc.batch)
    case KCommit => Member(pc.batch)
  }

  function PcAfter(pc: Pc, kind: Kind): Pc {
    match kind
    case KLone => LoneAppended
    case KBegin(b) => InBatch(b)
    case KRow => pc
    case KCommit => Sealed
  }

  function UsedAfter(used: set<nat>, kind: Kind): set<nat> {
    if kind.KBegin? then used + {kind.batch} else used
  }

  function RecordOf(o: RowOp, seqNo: nat, ts: u64): Record
    requires seqNo < TWO64
  {
    Record(seqNo, ts, o.rowNo, o.rowVer, o.tableId, o.op, o.payload)
  }

  function BeginOp(n: nat): RowOp {
    RowOp(OP_BEGIN, 0, 0, 0, Encode(n, 4))
  }

  function CommitOp(): RowOp {
    RowOp(OP_COMMIT, 0, 0, 0, [])
  }

  /** Everything the batch appends, marks included. */
  function BatchOps(rows: seq<RowOp>): seq<RowOp> {
    [BeginOp(|rows|)] + rows + [CommitOp()]
  }

  function BatchBytes(rows: seq<RowOp>): nat {
    RowBytes(BatchOps(rows))
  }

  function RecordsOf(ops: seq<RowOp>, first: nat, ts: u64): (rs: seq<Record>)
    requires first + |ops| <= TWO64
    ensures |rs| == |ops|
  {
    if ops == [] then [] else [RecordOf(ops[0], first, ts)] + RecordsOf(ops[1..], first + 1, ts)
  }

  function BatchRecords(rows: seq<RowOp>, first: nat, ts: u64): (rs: seq<Record>)
    requires first + |rows| + 2 <= TWO64
  {
    RecordsOf(BatchOps(rows), first, ts)
  }

  lemma FoldNothing(ckpt: nat)
    ensures Fold(ckpt, []) == Replay(false, [], [], 0, true)
  {
  }

  lemma RowBytesStep(ops: seq<RowOp>, i: nat)
    requires i < |ops|
    ensures RowBytes(ops[i..]) == RecordBytes(|ops[i].payload|) + RowBytes(ops[i + 1..])
  {
    assert ops[i..][1..] == ops[i + 1..];
  }

  lemma NoRecords(ops: seq<RowOp>, first: nat, ts: u64)
    requires first <= TWO64
    ensures RecordsOf(ops[..0], first, ts) == []
  {
  }

  lemma {:induction false} RecordsOfPush(ops: seq<RowOp>, i: nat, first: nat, ts: u64)
    requires i < |ops| && first + |ops| <= TWO64
    ensures RecordsOf(ops[..i + 1], first, ts) == RecordsOf(ops[..i], first, ts) + [RecordOf(ops[i], first + i, ts)]
    decreases i
  {
    if i == 0 {
      assert ops[..1][1..] == [] && ops[..0] == [];
    } else {
      RecordsOfPush(ops[1..], i - 1, first + 1, ts);
      assert ops[..i + 1][1..] == ops[1..][..i] && ops[..i][1..] == ops[1..][..i - 1];
    }
  }

  /** Room for a total, also should the ring be empty. */
  ghost predicate RoomLeft(g: Image, total: nat) {
    Shape(g) && HasRoomFor(g, total) && EmptyFits(g, total)
  }

  lemma RoomForSum(g: Image, total: nat)
    requires Shape(g) && HasRoomFor(g, total)
    ensures EmptyFits(g, total) ==> RoomLeft(g, total)
  {
  }

  lemma RoomLeftStep(fr: Framing, g: Image, ss: seq<Slot>, total: nat, r: Record)
    requires Holds(fr, g, ss) && RoomLeft(g, total) && Size(r) <= total
    ensures HasRoomFor(g, Size(r)) && EmptyFits(g, Size(r))
    ensures RoomLeft(AppendImage(fr, g, r), total - Size(r))
  {
    RoomStep(fr, g, total, r);
  }

  lemma ExtendsBy(was: seq<Record>, base: seq<Record>, added: seq<Record>)
    requires Extends(was, base, [])
    ensures Extends(was, base + added, added)
  {
    var k :| 0 <= k <= |was| && base == was[k..] + [];
    assert base + added == was[k..] + added;
  }

  lemma NoSteps(s: Sys)
    ensures IsRun(s, [], s)
  {
  }

  lemma OneStep(s: Sys, a: Act)
    requires Enabled(s, a)
    ensures IsRun(s, [a], Do(s, a))
  {
    assert IsRun(Do(s, a), [a][1..], Do(s, a));
  }

  lemma TwoSteps(s: Sys, a: Act, b: Act)
    requires Enabled(s, a) && Enabled(Do(s, a), b)
    ensures IsRun(s, [a, b], Do(Do(s, a), b))
  {
    OneStep(Do(s, a), b);
    assert [a, b][1..] == [b];
  }

  lemma {:induction false} RunTrans(s: Sys, xs: seq<Act>, t: Sys, ys: seq<Act>, u: Sys)
    requires IsRun(s, xs, t) && IsRun(t, ys, u)
    ensures IsRun(s, xs + ys, u)
    decreases |xs|
  {
    hide Enabled, Do;
    if xs == [] {
      assert xs + ys == ys;
    } else {
      RunTrans(Do(s, xs[0]), xs[1..], t, ys, u);
      assert (xs + ys)[1..] == xs[1..] + ys;
    }
  }

  /** Flushing and reclaiming keep a suffix of the records. */
  lemma RunSuffix(s: Sys, acts: seq<Act>, t: Sys)
    requires IsRun(s, acts, t) && (acts == [] || exists k: nat :: acts == [Flush, Reclaim(k)])
    ensures Extends(s.rs, t.rs, [])
  {
    if acts == [] {
      assert t.rs == s.rs[0..] + [];
    } else {
      var k: nat :| acts == [Flush, Reclaim(k)];
      assert acts[1..] == [Reclaim(k)] && acts[1..][1..] == [];
      assert IsRun(Do(Do(s, Flush), Reclaim(k)), [Reclaim(k)][1..], t);
      assert t.rs == s.rs[k..] + [];
    }
  }
}
