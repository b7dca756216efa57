/** The ring in memory (src/storage/wal_ring.cpp): header fields and a byte area rewritten in
    place, proved against the value-level ring of WalImage and the scans of WalScan. */
module WalRing {
  import opened LittleEndian
  import opened WalFormat
  import opened WalImage
  import opened WalScan
  import opened Errors

  method WriteBytes(a: array<byte>, p: nat, b: seq<byte>)
    requires p + |b| <= a.Length
    modifies a
    ensures a[..] == Splice(old(a[..]), p, b)
  {
    var i := 0;
    while i < |b|
      invariant i <= |b|
      invariant a[..] == Splice(old(a[..]), p, b[..i])
    {
      a[p + i] := b[i];
      i := i + 1;
    }
    assert b[..|b|] == b;
  }

  /** What stands at the tail is neither a gap, nor a pad, nor a record of the number that is due there. */
  predicate BadTail(g: Image)
    requires Shape(g)
  {
    && |g.area| - g.tailPos >= MIN_RECORD && !PadAt(g.area, g.tailPos)
    && (FramedAt(g.area, g.tailPos) ==> U64At(g.area, g.tailPos + 8) != g.tailSeq)
  }

  predicate RecordTail(g: Image)
    requires Shape(g)
  {
    |g.area| - g.tailPos >= MIN_RECORD && !PadAt(g.area, g.tailPos)
  }

  class Ring {
    const crc: Checksum
    const area: array<byte>
    var headSeq: nat
    var tailSeq: nat
    var headPos: nat
    var tailPos: nat
    var poisoned: bool
    /** Where the retained records lie. */
    ghost var slots: seq<Slot>

    function Img(): Image
      reads this, area
    {
      Image(area[..], headSeq, tailSeq, headPos, tailPos)
    }

    ghost function Fr(): Framing {
      FramingOf(crc)
    }

    ghost predicate Valid()
      reads this, area
    {
      Shape(Img()) && Holds(Fr(), Img(), slots)
    }

    predicate HasRoom(bytes: nat)
      requires Shape(Img())
      reads this, area
    {
      HasRoomFor(Img(), bytes)
    }

    ghost function Retained(): seq<Record>
      reads this
    {
      Records(slots)
    }

    constructor (crc: Checksum, areaBytes: nat)
      requires MIN_AREA <= areaBytes <= MAX_AREA
      ensures Valid() && Retained() == [] && !poisoned && fresh(area)
      ensures headSeq == tailSeq == 1 && area.Length == areaBytes && this.crc == crc
    {
      this.crc := crc;
      area := new byte[areaBytes](_ => 0);
      headSeq, tailSeq, headPos, tailPos := 1, 1, 0, 0;
      poisoned := false;
      slots := [];
    }

    method WriteTailPadAndWrap()
      requires Shape(Img())
      modifies area, `headPos
      ensures area[..] == PadArea(Fr(), old(Img())) && headPos == 0
    {
      var remaining := area.Length - headPos;
      if remaining >= MIN_RECORD {
        WriteBytes(area, headPos, Frame(crc, PadRecord(remaining)));
      }
      headPos := 0;
    }

    /** Lays down one record at the head, behind a pad if it does not fit before the end. */
    method WriteRecord(r: Record)
      requires Shape(Img()) && Size(r) <= area.Length
      modifies area, `headSeq, `headPos
      ensures Img() == AppendImage(Fr(), old(Img()), r)
    {
      var consumed := Size(r);
      if area.Length - headPos < consumed {
        WriteTailPadAndWrap();
      }
      WriteBytes(area, headPos, Frame(crc, r));
      headSeq := headSeq + 1;
      headPos := headPos + consumed;
      if headPos >= area.Length {
        headPos := 0;
      }
    }

    /** The bytes of one append: refused, or exactly AppendImage. */
    method AppendBytes(r: Record) returns (e: Err)
      requires Shape(Img())
      modifies area, `headSeq, `headPos
      ensures e == AppendError(poisoned, old(Img()), Size(r))
      ensures Img() == if e == Ok then AppendImage(Fr(), old(Img()), r) else old(Img())
    {
      hide FramingOf;
      if poisoned {
        return Poisoned;
      }
      if !HasRoomFor(Img(), Size(r)) {
        return LimitExceeded;
      }
      WriteRecord(r);
      e := Ok;
    }

    /** Appends one record under the next sequence number. An admitted append keeps the ring sound
        unless the ring was empty and the record overlaps its own tail. */
    method Append(op: byte, tableId: u64, rowNo: u64, rowVer: u64, ts: u64, payload: seq<byte>)
      returns (e: Err, seqNo: nat)
      requires Valid() && op != OP_PAD && headSeq < TWO64
      modifies area, `headSeq, `headPos, `slots
      ensures e == AppendError(poisoned, old(Img()), RecordBytes(|payload|))
      ensures seqNo == old(headSeq)
      ensures var r := Record(seqNo, ts, rowNo, rowVer, tableId, op, payload);
        && Img() == (if e == Ok then AppendImage(Fr(), old(Img()), r) else old(Img()))
        && Retained() == (if e == Ok then old(Retained()) + [r] else old(Retained()))
      ensures e != Ok || EmptyFits(old(Img()), RecordBytes(|payload|)) <==> Retains(Fr(), Img(), Retained())
      ensures e != Ok || EmptyFits(old(Img()), RecordBytes(|payload|)) ==> Valid()
    {
      hide Holds, FramingOf;
      seqNo := headSeq;
      var r := Record(seqNo, ts, rowNo, rowVer, tableId, op, payload);
      ghost var g, ss := Img(), slots;
      AppendOutcome(Fr(), g, ss, r);
      e := AppendBytes(r);
      if e == Ok {
        slots := ss + [Slot(Place(g, Size(r)), r)];
      }
    }

    /** One turn of the reclaim loop, on any bytes: over a gap or pad, or past the oldest record if that is safe; what
        cannot stand there is reported and left. On a sound ring that is past a gap, or past the oldest record. */
    method AdvanceTail(safe: nat) returns (e: Err, ghost skipped: bool)
      requires Shape(Img()) && headSeq != tailSeq
      modifies `tailSeq, `tailPos
      ensures e == Corruption <==> BadTail(old(Img()))
      ensures e == LimitExceeded <==> !BadTail(old(Img())) && RecordTail(old(Img())) && old(tailSeq) > safe
      ensures e == Ok || e == Corruption || e == LimitExceeded
      ensures e != Ok ==> Img() == old(Img())
      ensures e == Ok ==> tailSeq == old(tailSeq) + (if RecordTail(old(Img())) then 1 else 0)
      ensures old(Valid() && slots != []) ==> (skipped <==> old(slots[0].pos != tailPos))
      ensures old(Valid() && slots != []) ==>
        && e == (if !skipped && old(tailSeq) > safe then LimitExceeded else Ok)
        && Img() == (if e != Ok then old(Img()) else if skipped then SkipGapImage(old(Img()))
                     else DropImage(old(Img()), Size(old(slots[0].rec))))
    {
      hide Holds, FramingOf;
      if Valid() && slots != [] { TailReads(crc, Img(), slots); }
      skipped := slots != [] && slots[0].pos != tailPos;
      var remaining := area.Length - tailPos;
      if remaining < MIN_RECORD {
        tailPos := 0;
        return Ok, skipped;
      }
      var total := U32At(area[..], tailPos);
      if total < MIN_RECORD || total > remaining {
        return Corruption, skipped;
      }
      if area[tailPos + 48] != OP_PAD {
        if U64At(area[..], tailPos + 8) != tailSeq {
          return Corruption, skipped;
        }
        if tailSeq > safe {
          return LimitExceeded, skipped;
        }
        tailSeq := tailSeq + 1;
      }
      tailPos := tailPos + total;
      if tailPos >= area.Length {
        tailPos := 0;
      }
      e := Ok;
    }

    /** Drops the oldest records, never past the safe sequence number, until the record fits: a
        prefix, and no longer a prefix than needed. */
    method ReclaimForRecord(recBytes: nat, safe: nat) returns (e: Err, ghost dropped: nat)
      requires Valid()
      modifies `tailSeq, `tailPos, `slots
      ensures Valid()
      ensures dropped <= |old(slots)| && slots == old(slots)[dropped..]
      ensures tailSeq == old(tailSeq) + dropped && (dropped > 0 ==> tailSeq <= safe + 1)
      ensures forall j :: 0 <= j < dropped ==> TailLacksRoom(old(Img()), old(slots), j, recBytes)
      ensures e == Ok <==> HasRoomFor(Img(), recBytes)
      ensures e != Ok ==> e == LimitExceeded
      ensures e != Ok ==> if slots == [] then recBytes > area.Length else tailSeq > safe
    {
      hide Holds, FramingOf;
      dropped := 0;
      while !HasRoomFor(Img(), recBytes)
        invariant Valid()
        invariant dropped <= |old(slots)| && slots == old(slots)[dropped..]
        invariant tailSeq == old(tailSeq) + dropped && (dropped > 0 ==> tailSeq <= safe + 1)
        invariant forall j :: 0 <= j < dropped ==> TailLacksRoom(old(Img()), old(slots), j, recBytes)
        decreases PendingBytes(Img())
      {
        SlotCount(Fr(), Img(), slots);
        if headSeq == tailSeq {
          return LimitExceeded, dropped;
        }
        ghost var g, ss := Img(), slots;
        TailKeeps(Fr(), g, ss);
        ghost var skipped: bool;
        e, skipped := AdvanceTail(safe);
        if e != Ok {
          return;
        }
        if !skipped {
          assert g == TailAt(old(Img()), old(slots), dropped);
          slots := slots[1..];
          dropped := dropped + 1;
        }
      }
      e := Ok;
    }

    method DropAllRetained()
      requires Valid()
      modifies `tailSeq, `tailPos, `slots
      ensures Valid() && slots == [] && tailSeq == headSeq
    {
      tailPos := headPos;
      tailSeq := headSeq;
      slots := [];
    }

    /** Recovery moves the head back behind record k of the retained ones (k >= 1). */
    method RewindHeadAfterReplay(nextSeq: nat, nextPos: nat) returns (e: Err)
      requires Valid()
      modifies `headSeq, `headPos, `slots
      ensures e == (if tailSeq <= nextSeq <= old(headSeq) && nextPos < area.Length then Ok else Corruption)
      ensures Img() == if e == Ok then RewindImage(old(Img()), nextSeq, nextPos) else old(Img())
      ensures slots == if e == Ok then old(slots)[..nextSeq - tailSeq] else old(slots)
      ensures e == Ok ==> nextSeq > tailSeq ==>
        nextPos == Norm(area.Length, EndOf(old(slots)[nextSeq - tailSeq - 1])) ==> Valid()
    {
      hide Holds, FramingOf;
      SlotCount(Fr(), Img(), slots);
      if nextSeq < tailSeq || nextSeq > headSeq {
        return Corruption;
      }
      if nextPos >= area.Length {
        return Corruption;
      }
      ghost var k := nextSeq - tailSeq;
      if k > 0 {
        RewindKeeps(Fr(), Img(), slots, k);
      }
      headSeq := nextSeq;
      headPos := nextPos;
      slots := slots[..k];
      e := Ok;
    }

    method RewindHeadToTail()
      requires Valid()
      modifies `headSeq, `headPos, `slots
      ensures Valid() && slots == [] && headSeq == tailSeq && headPos == tailPos
    {
      headSeq := tailSeq;
      headPos := tailPos;
      slots := [];
    }

    /** Returns what the scan function says of the bytes, whatever they are. */
    method ScanValid() returns (views: seq<View>, ok: bool)
      requires Shape(Img())
      ensures Scan(views, ok) == WalScan.ScanValid(crc, Img())
    {
      hide StepAt, ScanFrom;
      views := [];
      if headSeq == tailSeq {
        return [], true;
      }
      var pos: nat, want, steps, first := tailPos, tailSeq, 0, true;
      ghost var step := StepperOf(crc, area[..]);
      ghost var whole := ScanFrom(step, headPos, MaxSteps(area.Length), pos, want, 0, true);
      while first || pos != headPos
        invariant pos < area.Length && steps <= MaxSteps(area.Length)
        invariant var rest := ScanFrom(step, headPos, MaxSteps(area.Length), pos, want, steps, first);
          whole == Scan(views + rest.views, rest.ok)
        decreases MaxSteps(area.Length) - steps
      {
        ScanStep(step, headPos, MaxSteps(area.Length), pos, want, steps, first);
        if steps == MaxSteps(area.Length) {
          return views, false;
        }
        var s := StepAt(crc, area[..], pos, want);
        assert step(pos, want) == s;
        steps, first := steps + 1, false;
        match s {
          case Skip(next) => pos := next;
          case Torn => return views, true;
          case Bad => return views, false;
          case Found(r, next) =>
            views := views + [View(r, next)];
            pos, want := next, want + 1;
        }
      }
      ScanStep(step, headPos, MaxSteps(area.Length), pos, want, steps, first);
      ok := true;
    }

    /** Delivers to a callback that charges each record and refuses once its budget is spent. */
    method ScanRange(lo: nat, hi: nat, b: Budget) returns (recs: seq<Record>, status: Err, last: nat)
      requires Shape(Img())
      ensures Range(recs, status) == WalScan.ScanRange(crc, Img(), lo, hi, b)
      ensures last == if recs == [] then lo else recs[|recs| - 1].seqNo
    {
      hide StepAt, RangeFrom;
      recs, last := [], lo;
      if hi <= lo {
        return [], Ok, lo;
      }
      if lo + 1 < tailSeq {
        return [], CursorOverflow, lo;
      }
      if headSeq == tailSeq || lo + 1 >= headSeq {
        return [], Ok, lo;
      }
      var pos: nat, want, steps, first, spent: nat := tailPos, tailSeq, 0, true, 0;
      ghost var step := StepperOf(crc, area[..]);
      ghost var whole := RangeFrom(step, headPos, MaxSteps(area.Length), pos, want, 0, true, lo, hi, b, 0);
      while first || pos != headPos
        invariant pos < area.Length && steps <= MaxSteps(area.Length)
        invariant var rest := RangeFrom(step, headPos, MaxSteps(area.Length), pos, want, steps, first,
                                        lo, hi, b, spent);
          whole == Range(recs + rest.recs, rest.status)
        invariant last == if recs == [] then lo else recs[|recs| - 1].seqNo
        decreases MaxSteps(area.Length) - steps
      {
        RangeStep(step, headPos, MaxSteps(area.Length), pos, want, steps, first, lo, hi, b, spent);
        if steps == MaxSteps(area.Length) {
          return recs, Corruption, last;
        }
        var s := StepAt(crc, area[..], pos, want);
        assert step(pos, want) == s;
        steps, first := steps + 1, false;
        match s {
          case Skip(next) => pos := next;
          case Torn => return recs, Ok, last;
          case Bad => return recs, Corruption, last;
          case Found(r, next) =>
            if r.seqNo > hi {
              return recs, Ok, last;
            }
            if r.seqNo > lo {
              if spent >= b.limit {
                return recs, Ok, last;
              }
              recs, last, spent := recs + [r], r.seqNo, spent + b.cost(r);
            }
            pos, want := next, want + 1;
        }
      }
      RangeStep(step, headPos, MaxSteps(area.Length), pos, want, steps, first, lo, hi, b, spent);
      status := Ok;
    }
  }

  lemma ScanStep(step: Stepper, headPos: nat, max: nat, pos: nat, want: nat, steps: nat, first: bool)
    requires steps <= max
    ensures ScanFrom(step, headPos, max, pos, want, steps, first)
         == if !first && pos == headPos then Scan([], true)
            else if steps == max then Scan([], false)
            else match step(pos, want)
              case Skip(next) => ScanFrom(step, headPos, max, next, want, steps + 1, false)
              case Torn => Scan([], true)
              case Bad => Scan([], false)
              case Found(r, next) =>
                var rest := ScanFrom(step, headPos, max, next, want + 1, steps + 1, false);
                Scan([View(r, next)] + rest.views, rest.ok)
  {
  }

  lemma RangeStep(step: Stepper, headPos: nat, max: nat, pos: nat, want: nat, steps: nat, first: bool,
                  lo: nat, hi: nat, b: Budget, spent: nat)
    requires steps <= max
    ensures RangeFrom(step, headPos, max, pos, want, steps, first, lo, hi, b, spent)
         == if !first && pos == headPos then Range([], Ok)
            else if steps == max then Range([], Corruption)
            else match step(pos, want)
              case Skip(next) => RangeFrom(step, headPos, max, next, want, steps + 1, false, lo, hi, b, spent)
              case Torn => Range([], Ok)
              case Bad => Range([], Corruption)
              case Found(r, next) =>
                if r.seqNo > hi then Range([], Ok)
                else if r.seqNo <= lo then
                  RangeFrom(step, headPos, max, next, want + 1, steps + 1, false, lo, hi, b, spent)
                else if spent >= b.limit then Range([], Ok)
                else
                  var rest := RangeFrom(step, headPos, max, next, want + 1, steps + 1, false, lo, hi, b,
                                        spent + b.cost(r));
                  Range([r] + rest.recs, rest.status)
  {
  }

  function AppendError(poisoned: bool, g: Image, bytes: nat): Err
    requires Shape(g)
  {
    if poisoned then Poisoned else if !HasRoomFor(g, bytes) then LimitExceeded else Ok
  }

  lemma AppendOutcome(fr: Framing, g: Image, ss: seq<Slot>, r: Record)
    requires Holds(fr, g, ss) && r.seqNo == g.headSeq && r.op != OP_PAD
    ensures Retains(fr, g, Records(ss))
    ensures HasRoomFor(g, Size(r)) ==>
      var g' := AppendImage(fr, g, r); var tt := ss + [Slot(Place(g, Size(r)), r)];
      && Records(tt) == Records(ss) + [r]
      && (EmptyFits(g, Size(r)) <==> Retains(fr, g', Records(tt)))
      && (EmptyFits(g, Size(r)) ==> Holds(fr, g', tt))
  {
    RetainsIntro(fr, g, ss, Records(ss));
    if HasRoomFor(g, Size(r)) {
      RecordsPush(ss, Slot(Place(g, Size(r)), r));
      AppendSoundIff(fr, g, Records(ss), r);
      if EmptyFits(g, Size(r)) {
        AppendKeeps(fr, g, ss, r);
      }
    }
  }

  /** The image when the tail has reached slot j. */
  ghost function TailAt(g: Image, ss: seq<Slot>, j: nat): Image
    requires j < |ss|
  {
    g.(tailSeq := g.tailSeq + j, tailPos := ss[j].pos)
  }

  ghost predicate TailLacksRoom(g: Image, ss: seq<Slot>, j: nat, bytes: nat)
    requires j < |ss|
  {
    Shape(TailAt(g, ss, j)) && !HasRoomFor(TailAt(g, ss, j), bytes)
  }

  lemma SlotCount(fr: Framing, g: Image, ss: seq<Slot>)
    requires Holds(fr, g, ss)
    ensures |ss| == g.headSeq - g.tailSeq
  {
  }

  /** Past the gap or past the record, the ring is sound and less of it is pending. */
  lemma TailKeeps(fr: Framing, g: Image, ss: seq<Slot>)
    requires Holds(fr, g, ss) && ss != []
    ensures var g' := if ss[0].pos != g.tailPos then SkipGapImage(g) else DropImage(g, Size(ss[0].rec));
      && Shape(g') && PendingBytes(g') < PendingBytes(g)
      && Holds(fr, g', if ss[0].pos != g.tailPos then ss else ss[1..])
  {
    if ss[0].pos != g.tailPos {
      SkipGapKeeps(fr, g, ss);
    } else {
      DropKeeps(fr, g, ss);
    }
  }

  lemma RecordReads(crc: Checksum, g: Image, ss: seq<Slot>)
    requires Holds(FramingOf(crc), g, ss) && ss != [] && ss[0].pos == g.tailPos
    ensures |g.area| - g.tailPos >= MIN_RECORD
    ensures U32At(g.area, g.tailPos) == Size(ss[0].rec) <= |g.area| - g.tailPos
    ensures g.area[g.tailPos + 48] != OP_PAD && U64At(g.area, g.tailPos + 8) == g.tailSeq
  {
    hide Decode;
    assert SlotOk(FramingOf(crc), g, ss[0], g.tailSeq + 0);
    FrameFields(crc, g.area, g.tailPos, ss[0].rec);
    var r := RecordAt(g.area, g.tailPos, |ss[0].rec.payload|);
    assert r.op == g.area[g.tailPos + 48] && r.seqNo == U64At(g.area, g.tailPos + 8);
  }

  lemma PadReads(crc: Checksum, g: Image)
    requires Shape(g) && Gap(FramingOf(crc), g.area, g.tailPos) && |g.area| - g.tailPos >= MIN_RECORD
    ensures U32At(g.area, g.tailPos) == |g.area| - g.tailPos && g.area[g.tailPos + 48] == OP_PAD
  {
    hide Decode;
    var pad := PadRecord(|g.area| - g.tailPos);
    FrameFields(crc, g.area, g.tailPos, pad);
    assert RecordAt(g.area, g.tailPos, |pad.payload|).op == g.area[g.tailPos + 48];
  }

  /** What the reclaim loop reads at the tail of a sound ring. */
  lemma TailReads(crc: Checksum, g: Image, ss: seq<Slot>)
    requires Holds(FramingOf(crc), g, ss) && ss != []
    ensures var room := |g.area| - g.tailPos;
      if ss[0].pos == g.tailPos then
        && room >= MIN_RECORD && U32At(g.area, g.tailPos) == Size(ss[0].rec) <= room
        && g.area[g.tailPos + 48] != OP_PAD && U64At(g.area, g.tailPos + 8) == g.tailSeq
      else room >= MIN_RECORD ==>
        U32At(g.area, g.tailPos) == room && g.area[g.tailPos + 48] == OP_PAD
  {
    hide FramingOf, Decode;
    if ss[0].pos == g.tailPos {
      RecordReads(crc, g, ss);
    } else if |g.area| - g.tailPos >= MIN_RECORD {
      PadReads(crc, g);
    }
  }
}
