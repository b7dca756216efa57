/** The two scans of the ring (wal_ring.cpp:277-439) as functions of its bytes, with every branch
    for torn and inconsistent images, and what they return on a ring that holds records. */
module WalScan {
  import opened LittleEndian
  import opened WalFormat
  import opened WalImage
  import opened Errors

  // ---- one step of either scan ----

  datatype Step = Skip(next: nat) | Torn | Bad | Found(rec: Record, next: nat)

  function StepAt(crc: Checksum, a: seq<byte>, pos: nat, want: nat): (s: Step)
    requires pos < |a|
    ensures s.Skip? || s.Found? ==> s.next < |a|
  {
    if |a| - pos < MIN_RECORD then Skip(0)
    else
      var total := U32At(a, pos);
      if total < MIN_RECORD || pos + total > |a| then Torn
      else
        var op := a[pos + 48];
        var next := Norm(|a|, pos + total);
        if !CrcOk(crc, a, pos, total) then (if op == OP_PAD then Skip(next) else Torn)
        else if op == OP_PAD then Skip(next)
        else if U64At(a, pos + 8) != want then Bad
        else if RecordBytes(U32At(a, pos + 4)) > total then Bad
        else Found(RecordAt(a, pos, U32At(a, pos + 4)), next)
  }

  function MaxSteps(n: nat): nat {
    n / MIN_RECORD + 16
  }

  /** What a scan meets at a position, given the sequence number it wants next. */
  type Stepper = (nat, nat) -> Step

  function StepperOf(crc: Checksum, a: seq<byte>): Stepper {
    (pos: nat, want: nat) => if pos < |a| then StepAt(crc, a, pos, want) else Torn
  }

  /** A delivered record with the normalised position behind it. */
  datatype View = View(rec: Record, endPos: nat)

  datatype Scan = Scan(views: seq<View>, ok: bool)

  function ScanFrom(step: Stepper, headPos: nat, maxSteps: nat, pos: nat, want: nat, steps: nat,
                    first: bool): Scan
    requires steps <= maxSteps
    decreases maxSteps - steps
  {
    if !first && pos == headPos then Scan([], true)
    else if steps == maxSteps then Scan([], false)
    else match step(pos, want)
      case Skip(next) => ScanFrom(step, headPos, maxSteps, next, want, steps + 1, false)
      case Torn => Scan([], true)
      case Bad => Scan([], false)
      case Found(r, next) =>
        var rest := ScanFrom(step, headPos, maxSteps, next, want + 1, steps + 1, false);
        Scan([View(r, next)] + rest.views, rest.ok)
  }

  function ScanValid(crc: Checksum, g: Image): Scan
    requires Shape(g)
  {
    if g.headSeq == g.tailSeq then Scan([], true)
    else ScanFrom(StepperOf(crc, g.area), g.headPos, MaxSteps(|g.area|), g.tailPos, g.tailSeq, 0, true)
  }

  // ---- the incremental scan; the subscriber's callback stops once its budget is spent ----

  datatype Range = Range(recs: seq<Record>, status: Err)

  /** What the callback charges for each record, and the charge at which it refuses more. */
  datatype Budget = Budget(cost: Record -> nat, limit: nat)

  function RangeFrom(step: Stepper, headPos: nat, maxSteps: nat, pos: nat, want: nat, steps: nat,
                     first: bool, lo: nat, hi: nat, b: Budget, spent: nat): Range
    requires steps <= maxSteps
    decreases maxSteps - steps
  {
    if !first && pos == headPos then Range([], Ok)
    else if steps == maxSteps then Range([], Corruption)
    else match step(pos, want)
      case Skip(next) => RangeFrom(step, headPos, maxSteps, next, want, steps + 1, false, lo, hi, b, spent)
      case Torn => Range([], Ok)
      case Bad => Range([], Corruption)
      case Found(r, next) =>
        if r.seqNo > hi then Range([], Ok)
        else if r.seqNo <= lo then
          RangeFrom(step, headPos, maxSteps, next, want + 1, steps + 1, false, lo, hi, b, spent)
        else if spent >= b.limit then Range([], Ok)
        else
          var rest := RangeFrom(step, headPos, maxSteps, next, want + 1, steps + 1, false, lo, hi, b,
                                spent + b.cost(r));
          Range([r] + rest.recs, rest.status)
  }

  function ScanRange(crc: Checksum, g: Image, lo: nat, hi: nat, b: Budget): Range
    requires Shape(g)
  {
    if hi <= lo then Range([], Ok)
    else if lo + 1 < g.tailSeq then Range([], CursorOverflow)
    else if g.headSeq == g.tailSeq || lo + 1 >= g.headSeq then Range([], Ok)
    else RangeFrom(StepperOf(crc, g.area), g.headPos, MaxSteps(|g.area|), g.tailPos, g.tailSeq, 0, true,
                   lo, hi, b, 0)
  }

  // ---- on a ring that holds records ----

  function Views(n: nat, ss: seq<Slot>): (vs: seq<View>)
    ensures |vs| == |ss|
    ensures forall i :: 0 <= i < |ss| ==> vs[i] == View(ss[i].rec, Norm(n, EndOf(ss[i])))
  {
    seq(|ss|, i requires 0 <= i < |ss| => View(ss[i].rec, Norm(n, EndOf(ss[i]))))
  }

  lemma StepAtSlot(crc: Checksum, g: Image, s: Slot, seqNo: nat)
    requires Shape(g) && SlotOk(FramingOf(crc), g, s, seqNo)
    ensures StepAt(crc, g.area, s.pos, seqNo) == Found(s.rec, Norm(|g.area|, EndOf(s)))
  {
    FrameFields(crc, g.area, s.pos, s.rec);
    assert RecordAt(g.area, s.pos, |s.rec.payload|).op == g.area[s.pos + 48];
    assert RecordAt(g.area, s.pos, |s.rec.payload|).seqNo == U64At(g.area, s.pos + 8);
  }

  lemma StepAtGap(crc: Checksum, g: Image, pos: nat, want: nat)
    requires Shape(g) && Gap(FramingOf(crc), g.area, pos)
    ensures StepAt(crc, g.area, pos, want) == Skip(0)
  {
    var room := |g.area| - pos;
    if room >= MIN_RECORD {
      var pad := PadRecord(room);
      FrameFields(crc, g.area, pos, pad);
      assert RecordAt(g.area, pos, |pad.payload|).op == g.area[pos + 48];
    }
  }

  // The route of a scan, free of bytes: where each record starts, where its scan step leads, and
  // the one gap on the way, if any.

  function EntryPos(tailPos: nat, vs: seq<View>, i: nat): nat
    requires i <= |vs|
  {
    if i == 0 then tailPos else vs[i - 1].endPos
  }

  datatype Route = Route(headPos: nat, tailPos: nat, tailSeq: nat, starts: seq<nat>, views: seq<View>,
                         gap: nat)

  ghost predicate RouteAt(step: Stepper, t: Route, i: nat)
    requires |t.starts| == |t.views| && i < |t.starts|
  {
    var entry := EntryPos(t.tailPos, t.views, i);
    && step(t.starts[i], t.tailSeq + i) == Found(t.views[i].rec, t.views[i].endPos)
    && (i > 0 ==> entry != t.headPos && t.starts[i] != t.headPos)
    && (i != t.gap ==> entry == t.starts[i])
    && (i == t.gap ==> t.starts[i] != t.headPos && step(entry, t.tailSeq + i) == Skip(t.starts[i]))
  }

  ghost predicate Routed(step: Stepper, t: Route) {
    && |t.starts| == |t.views| > 0
    && t.views[|t.views| - 1].endPos == t.headPos
    && forall i :: 0 <= i < |t.starts| ==> RouteAt(step, t, i)
  }

  lemma {:induction false} RouteEntry(step: Stepper, t: Route, max: nat, i: nat, steps: nat, first: bool)
    requires Routed(step, t) && i < |t.starts| && (first <==> i == 0)
    requires |t.starts| + 1 < max && steps <= i + (if t.gap < i then 1 else 0)
    ensures ScanFrom(step, t.headPos, max, EntryPos(t.tailPos, t.views, i), t.tailSeq + i, steps, first)
         == Scan(t.views[i..], true)
    decreases |t.starts| - i, 1
  {
    assert RouteAt(step, t, i);
    if i == t.gap {
      RouteStart(step, t, max, i, steps + 1, false);
    } else {
      RouteStart(step, t, max, i, steps, first);
    }
  }

  lemma {:induction false} RouteStart(step: Stepper, t: Route, max: nat, i: nat, steps: nat, first: bool)
    requires Routed(step, t) && i < |t.starts| && (first || t.starts[i] != t.headPos)
    requires |t.starts| + 1 < max && steps <= i + (if t.gap <= i then 1 else 0)
    ensures ScanFrom(step, t.headPos, max, t.starts[i], t.tailSeq + i, steps, first)
         == Scan(t.views[i..], true)
    decreases |t.starts| - i, 0
  {
    assert RouteAt(step, t, i);
    if i + 1 < |t.starts| {
      RouteEntry(step, t, max, i + 1, steps + 1, false);
    }
    assert t.views[i..] == [t.views[i]] + t.views[i + 1..];
    assert View(t.views[i].rec, t.views[i].endPos) == t.views[i];
  }

  lemma {:induction false} RangeEntry(step: Stepper, t: Route, max: nat, i: nat, steps: nat, first: bool,
                                      lo: nat, hi: nat, b: Budget, spent: nat)
    requires Routed(step, t) && i < |t.starts| && (first <==> i == 0)
    requires |t.starts| + 1 < max && steps <= i + (if t.gap < i then 1 else 0)
    ensures RangeFrom(step, t.headPos, max, EntryPos(t.tailPos, t.views, i), t.tailSeq + i, steps, first,
                      lo, hi, b, spent)
         == Range(Deliver(t.views[i..], lo, hi, b, spent), Ok)
    decreases |t.starts| - i, 1
  {
    assert RouteAt(step, t, i);
    if i == t.gap {
      RangeStart(step, t, max, i, steps + 1, false, lo, hi, b, spent);
    } else {
      RangeStart(step, t, max, i, steps, first, lo, hi, b, spent);
    }
  }

  lemma {:induction false} RangeStart(step: Stepper, t: Route, max: nat, i: nat, steps: nat, first: bool,
                                      lo: nat, hi: nat, b: Budget, spent: nat)
    requires Routed(step, t) && i < |t.starts| && (first || t.starts[i] != t.headPos)
    requires |t.starts| + 1 < max && steps <= i + (if t.gap <= i then 1 else 0)
    ensures RangeFrom(step, t.headPos, max, t.starts[i], t.tailSeq + i, steps, first, lo, hi, b, spent)
         == Range(Deliver(t.views[i..], lo, hi, b, spent), Ok)
    decreases |t.starts| - i, 0
  {
    hide Deliver;
    assert RouteAt(step, t, i);
    var r := t.views[i].rec;
    var spent' := if r.seqNo <= lo then spent else spent + b.cost(r);
    var vs := t.views[i..];
    assert vs != [] && vs[0] == t.views[i] && vs[1..] == t.views[i + 1..];
    DeliverNext(vs, lo, hi, b, spent);
    DeliverNone(lo, hi, b, spent');
    if i + 1 < |t.starts| {
      RangeEntry(step, t, max, i + 1, steps + 1, false, lo, hi, b, spent');
    }
  }

  /** The records a subscriber at lo may take up to hi, in order, until the budget is spent. */
  ghost function Deliver(vs: seq<View>, lo: nat, hi: nat, b: Budget, spent: nat): seq<Record> {
    if vs == [] || vs[0].rec.seqNo > hi then []
    else if vs[0].rec.seqNo <= lo then Deliver(vs[1..], lo, hi, b, spent)
    else if spent >= b.limit then []
    else [vs[0].rec] + Deliver(vs[1..], lo, hi, b, spent + b.cost(vs[0].rec))
  }

  lemma DeliverNext(vs: seq<View>, lo: nat, hi: nat, b: Budget, spent: nat)
    requires vs != []
    ensures var r := vs[0].rec;
      Deliver(vs, lo, hi, b, spent) == (
        if r.seqNo > hi then []
        else if r.seqNo <= lo then Deliver(vs[1..], lo, hi, b, spent)
        else if spent >= b.limit then []
        else [r] + Deliver(vs[1..], lo, hi, b, spent + b.cost(r)))
  {
  }

  lemma DeliverNone(lo: nat, hi: nat, b: Budget, spent: nat)
    ensures Deliver([], lo, hi, b, spent) == []
  {
  }

  lemma {:induction false} DeliverNothing(vs: seq<View>, lo: nat, hi: nat, b: Budget, spent: nat)
    requires hi <= lo || forall i :: 0 <= i < |vs| ==> vs[i].rec.seqNo <= lo
    ensures Deliver(vs, lo, hi, b, spent) == []
  {
    if vs != [] {
      DeliverNothing(vs[1..], lo, hi, b, spent);
    }
  }

  function Charge(b: Budget, rs: seq<Record>): nat {
    if rs == [] then 0 else b.cost(rs[0]) + Charge(b, rs[1..])
  }

  /** The delivery stops only at the end of what is wanted or when the budget is spent. */
  lemma {:induction false} DeliverStops(vs: seq<View>, lo: nat, hi: nat, b: Budget, spent: nat, first: nat)
    requires forall i :: 0 <= i < |vs| ==> vs[i].rec.seqNo == first + i
    requires hi < first + |vs|
    ensures var out := Deliver(vs, lo, hi, b, spent);
      first + |out| > hi || lo + |out| >= hi || spent + Charge(b, out) >= b.limit
    decreases |vs|
  {
    if vs != [] && vs[0].rec.seqNo <= hi {
      var rest := vs[1..];
      var r := vs[0].rec;
      if r.seqNo <= lo {
        DeliverStops(rest, lo, hi, b, spent, first + 1);
      } else {
        DeliverStops(rest, lo, hi, b, spent + b.cost(r), first + 1);
        if spent < b.limit {
          var tail := Deliver(rest, lo, hi, b, spent + b.cost(r));
          assert ([r] + tail)[1..] == tail;
        }
      }
    }
  }

  /** Record x is the j-th wanted one of views numbered from first. */
  predicate InWindow(vs: seq<View>, lo: nat, hi: nat, first: nat, x: Record, j: nat) {
    && lo < x.seqNo <= hi && first <= x.seqNo < first + |vs|
    && x == vs[x.seqNo - first].rec
    && x.seqNo == (if lo < first then first else lo + 1) + j
  }

  /** What is delivered is the window from its start, in order and without a gap. */
  lemma {:induction false} DeliverWithin(vs: seq<View>, lo: nat, hi: nat, b: Budget, spent: nat, first: nat)
    requires forall i :: 0 <= i < |vs| ==> vs[i].rec.seqNo == first + i
    ensures forall j :: 0 <= j < |Deliver(vs, lo, hi, b, spent)| ==>
      InWindow(vs, lo, hi, first, Deliver(vs, lo, hi, b, spent)[j], j)
    decreases |vs|
  {
    if vs != [] && vs[0].rec.seqNo <= hi {
      var rest := vs[1..];
      var r := vs[0].rec;
      var spent' := if r.seqNo <= lo then spent else spent + b.cost(r);
      DeliverWithin(rest, lo, hi, b, spent', first + 1);
      var tail := Deliver(rest, lo, hi, b, spent');
      var out := Deliver(vs, lo, hi, b, spent);
      forall j | 0 <= j < |out| ensures InWindow(vs, lo, hi, first, out[j], j) {
        if r.seqNo <= lo {
          assert InWindow(rest, lo, hi, first + 1, tail[j], j);
        } else if j > 0 {
          assert out[j] == tail[j - 1];
          assert InWindow(rest, lo, hi, first + 1, tail[j - 1], j - 1);
        }
      }
    }
  }

  // ---- the route through a ring that holds records ----

  lemma {:induction false} SlotSpacing(fr: Framing, g: Image, ss: seq<Slot>, i: nat)
    requires Holds(fr, g, ss) && i < |ss|
    ensures MIN_RECORD * i <= Dist(g, ss[i].pos)
    ensures Dist(g, ss[i].pos) + Size(ss[i].rec) <= PendingBytes(g) <= |g.area|
    ensures EndOf(ss[i]) <= |g.area|
  {
    assert SlotOk(fr, g, ss[i], g.tailSeq + i);
    if i > 0 {
      SlotSpacing(fr, g, ss, i - 1);
      assert Behind(|g.area|, g.tailPos, ss[i - 1].pos) + Size(ss[i - 1].rec)
          <= Behind(|g.area|, g.tailPos, ss[i].pos);
    }
  }

  /** Behind a record that is not the last, the scan is strictly inside the pending stretch. */
  lemma BetweenSlots(fr: Framing, g: Image, ss: seq<Slot>, i: nat)
    requires Holds(fr, g, ss) && 0 < i < |ss|
    ensures var e := Norm(|g.area|, EndOf(ss[i - 1]));
      && 0 < Dist(g, e) <= Dist(g, ss[i].pos) < PendingBytes(g)
      && e != g.headPos && ss[i].pos != g.headPos
      && (e != ss[i].pos ==> ss[i].pos == 0 < e && Gap(fr, g.area, e))
  {
    SlotSpacing(fr, g, ss, i);
    SlotSpacing(fr, g, ss, i - 1);
    assert Behind(|g.area|, g.tailPos, ss[i - 1].pos) + Size(ss[i - 1].rec)
        <= Behind(|g.area|, g.tailPos, ss[i].pos);
    assert LinkAt(fr, g.area, ss, i);
  }

  ghost predicate GapBefore(g: Image, ss: seq<Slot>, i: nat)
    requires i < |ss|
  {
    EntryPos(g.tailPos, Views(|g.area|, ss), i) != ss[i].pos
  }

  /** There is at most one gap on the way round. */
  lemma OneGap(fr: Framing, g: Image, ss: seq<Slot>, i: nat, j: nat)
    requires Holds(fr, g, ss) && i < j < |ss| && GapBefore(g, ss, i)
    ensures !GapBefore(g, ss, j)
  {
    SlotSpacing(fr, g, ss, i);
    BetweenSlots(fr, g, ss, j);
    if i > 0 {
      BetweenSlots(fr, g, ss, i);
    }
    assert ss[i].pos == 0;
    assert Behind(|g.area|, g.tailPos, ss[i].pos) + Size(ss[i].rec)
        <= Behind(|g.area|, g.tailPos, ss[j].pos);
  }

  lemma GapFacts(fr: Framing, g: Image, ss: seq<Slot>, i: nat)
    requires Holds(fr, g, ss) && i < |ss| && GapBefore(g, ss, i)
    ensures var e := EntryPos(g.tailPos, Views(|g.area|, ss), i);
      && Gap(fr, g.area, e) && ss[i].pos == 0 && 0 != g.headPos && (i > 0 ==> e != g.headPos)
  {
    if i > 0 {
      BetweenSlots(fr, g, ss, i);
    } else {
      SlotSpacing(fr, g, ss, 0);
    }
  }

  ghost function GapIndex(g: Image, ss: seq<Slot>): (k: nat)
    ensures k < |ss| ==> GapBefore(g, ss, k)
    ensures k >= |ss| ==> forall i :: 0 <= i < |ss| ==> !GapBefore(g, ss, i)
  {
    if k: nat :| k < |ss| && GapBefore(g, ss, k) then k else |ss|
  }

  ghost function RouteOf(g: Image, ss: seq<Slot>): Route {
    Route(g.headPos, g.tailPos, g.tailSeq, seq(|ss|, i requires 0 <= i < |ss| => ss[i].pos),
          Views(|g.area|, ss), GapIndex(g, ss))
  }

  lemma HeldFound(crc: Checksum, g: Image, ss: seq<Slot>, i: nat)
    requires Holds(FramingOf(crc), g, ss) && i < |ss|
    ensures StepperOf(crc, g.area)(ss[i].pos, g.tailSeq + i)
         == Found(ss[i].rec, Norm(|g.area|, EndOf(ss[i])))
  {
    assert SlotOk(FramingOf(crc), g, ss[i], g.tailSeq + i);
    StepAtSlot(crc, g, ss[i], g.tailSeq + i);
  }

  lemma HeldSkip(crc: Checksum, g: Image, ss: seq<Slot>, i: nat)
    requires Holds(FramingOf(crc), g, ss) && i < |ss| && GapBefore(g, ss, i)
    ensures StepperOf(crc, g.area)(EntryPos(g.tailPos, Views(|g.area|, ss), i), g.tailSeq + i) == Skip(0)
  {
    GapFacts(FramingOf(crc), g, ss, i);
    StepAtGap(crc, g, EntryPos(g.tailPos, Views(|g.area|, ss), i), g.tailSeq + i);
  }

  lemma GapIndexIs(fr: Framing, g: Image, ss: seq<Slot>, i: nat)
    requires Holds(fr, g, ss) && i < |ss| && GapBefore(g, ss, i)
    ensures GapIndex(g, ss) == i
  {
    var k := GapIndex(g, ss);
    if i < k {
      OneGap(fr, g, ss, i, k);
    } else if k < i {
      OneGap(fr, g, ss, k, i);
    }
  }

  lemma HeldGap(fr: Framing, g: Image, ss: seq<Slot>, i: nat)
    requires Holds(fr, g, ss) && i < |ss|
    ensures i > 0 ==> Norm(|g.area|, EndOf(ss[i - 1])) != g.headPos && ss[i].pos != g.headPos
    ensures GapBefore(g, ss, i) ==> GapIndex(g, ss) == i && ss[i].pos == 0 != g.headPos
  {
    if i > 0 {
      BetweenSlots(fr, g, ss, i);
    }
    if GapBefore(g, ss, i) {
      GapFacts(fr, g, ss, i);
      GapIndexIs(fr, g, ss, i);
    }
  }

  lemma RouteAtIntro(step: Stepper, g: Image, ss: seq<Slot>, i: nat)
    requires i < |ss|
    requires step(ss[i].pos, g.tailSeq + i) == Found(ss[i].rec, Norm(|g.area|, EndOf(ss[i])))
    requires GapBefore(g, ss, i) ==>
      step(EntryPos(g.tailPos, Views(|g.area|, ss), i), g.tailSeq + i) == Skip(0)
    requires i > 0 ==> Norm(|g.area|, EndOf(ss[i - 1])) != g.headPos && ss[i].pos != g.headPos
    requires GapBefore(g, ss, i) ==> GapIndex(g, ss) == i && ss[i].pos == 0 != g.headPos
    ensures RouteAt(step, RouteOf(g, ss), i)
  {
    assert GapIndex(g, ss) == i ==> GapBefore(g, ss, i);
  }

  ghost predicate StepsRight(step: Stepper, g: Image, ss: seq<Slot>, i: nat)
    requires i < |ss|
  {
    && step(ss[i].pos, g.tailSeq + i) == Found(ss[i].rec, Norm(|g.area|, EndOf(ss[i])))
    && (GapBefore(g, ss, i) ==>
          step(EntryPos(g.tailPos, Views(|g.area|, ss), i), g.tailSeq + i) == Skip(0))
  }

  lemma HeldSteps(crc: Checksum, g: Image, ss: seq<Slot>, i: nat)
    requires Holds(FramingOf(crc), g, ss) && i < |ss|
    ensures StepsRight(StepperOf(crc, g.area), g, ss, i)
  {
    HeldFound(crc, g, ss, i);
    if GapBefore(g, ss, i) {
      HeldSkip(crc, g, ss, i);
    }
  }

  lemma HeldRouteAt(step: Stepper, fr: Framing, g: Image, ss: seq<Slot>, i: nat)
    requires Holds(fr, g, ss) && i < |ss| && StepsRight(step, g, ss, i)
    ensures RouteAt(step, RouteOf(g, ss), i)
  {
    HeldGap(fr, g, ss, i);
    RouteAtIntro(step, g, ss, i);
  }

  lemma HeldEnds(fr: Framing, g: Image, ss: seq<Slot>)
    requires Holds(fr, g, ss) && ss != []
    ensures |ss| + 1 < MaxSteps(|g.area|)
    ensures Norm(|g.area|, EndOf(ss[|ss| - 1])) == g.headPos
  {
    SlotSpacing(fr, g, ss, |ss| - 1);
  }

  lemma HeldRoute(step: Stepper, fr: Framing, g: Image, ss: seq<Slot>)
    requires Holds(fr, g, ss) && ss != []
    requires forall i :: 0 <= i < |ss| ==> StepsRight(step, g, ss, i)
    ensures Routed(step, RouteOf(g, ss))
    ensures |ss| + 1 < MaxSteps(|g.area|)
  {
    HeldEnds(fr, g, ss);
    forall i | 0 <= i < |ss| ensures RouteAt(step, RouteOf(g, ss), i) {
      HeldRouteAt(step, fr, g, ss, i);
    }
  }

  lemma RouteScan(step: Stepper, t: Route, max: nat)
    requires Routed(step, t) && |t.starts| + 1 < max
    ensures ScanFrom(step, t.headPos, max, t.tailPos, t.tailSeq, 0, true) == Scan(t.views, true)
  {
    RouteEntry(step, t, max, 0, 0, true);
    assert t.views[0..] == t.views;
  }

  lemma RouteRange(step: Stepper, t: Route, max: nat, lo: nat, hi: nat, b: Budget)
    requires Routed(step, t) && |t.starts| + 1 < max
    ensures RangeFrom(step, t.headPos, max, t.tailPos, t.tailSeq, 0, true, lo, hi, b, 0)
         == Range(Deliver(t.views, lo, hi, b, 0), Ok)
  {
    RangeEntry(step, t, max, 0, 0, true, lo, hi, b, 0);
    assert t.views[0..] == t.views;
  }

  /** The full scan returns exactly the retained sequence: through a pad, a bare wrap, an exact
      fill and a full ring. */
  lemma ScanExact(crc: Checksum, g: Image, ss: seq<Slot>)
    requires Shape(g) && Holds(FramingOf(crc), g, ss)
    ensures ScanValid(crc, g) == Scan(Views(|g.area|, ss), true)
  {
    if ss != [] {
      forall i | 0 <= i < |ss| ensures StepsRight(StepperOf(crc, g.area), g, ss, i) {
        HeldSteps(crc, g, ss, i);
      }
      HeldRoute(StepperOf(crc, g.area), FramingOf(crc), g, ss);
      RouteScan(StepperOf(crc, g.area), RouteOf(g, ss), MaxSteps(|g.area|));
    }
  }

  /** The incremental scan from inside the window delivers exactly the wanted records in order,
      stopping only for the budget; a start before the window is an overflow, never a gap. */
  lemma RangeExact(crc: Checksum, g: Image, ss: seq<Slot>, lo: nat, hi: nat, b: Budget)
    requires Shape(g) && Holds(FramingOf(crc), g, ss)
    ensures ScanRange(crc, g, lo, hi, b)
         == if lo < hi && lo + 1 < g.tailSeq then Range([], CursorOverflow)
            else Range(Deliver(Views(|g.area|, ss), lo, hi, b, 0), Ok)
  {
    var vs := Views(|g.area|, ss);
    if hi <= lo {
      DeliverNothing(vs, lo, hi, b, 0);
    } else if lo + 1 >= g.tailSeq && ss != [] {
      if lo + 1 >= g.headSeq {
        forall i | 0 <= i < |vs| ensures vs[i].rec.seqNo <= lo {
          assert SlotOk(FramingOf(crc), g, ss[i], g.tailSeq + i);
        }
        DeliverNothing(vs, lo, hi, b, 0);
      } else {
        forall i | 0 <= i < |ss| ensures StepsRight(StepperOf(crc, g.area), g, ss, i) {
          HeldSteps(crc, g, ss, i);
        }
        HeldRoute(StepperOf(crc, g.area), FramingOf(crc), g, ss);
        RouteRange(StepperOf(crc, g.area), RouteOf(g, ss), MaxSteps(|g.area|), lo, hi, b);
      }
    }
  }

  lemma ZeroWord(a: seq<byte>, p: nat)
    requires p + 4 <= |a| && a[p..p + 4] == Zeros(4)
    ensures U32At(a, p) == 0
  {
    var z := a[p..p + 4];
    assert z == [0, 0, 0, 0] && z[1..] == [0, 0, 0] && z[1..][1..] == [0, 0] && z[1..][1..][1..] == [0];
    assert Decode(z) == 0 + 256 * Decode(z[1..]);
    assert Decode([0, 0, 0]) == 0 + 256 * Decode([0, 0, 0][1..]) && [0, 0, 0][1..] == [0, 0];
    assert Decode([0, 0]) == 0 + 256 * Decode([0, 0][1..]) && [0, 0][1..] == [0];
  }

  /** What an overlapping append loses: the scan starts at the tail, in the middle of the record's payload, takes
      what it finds for a torn record, and ends without delivering anything and without reporting damage. */
  lemma OverlapLoses(crc: Checksum, seqNo: u64)
    requires seqNo >= 1
    ensures var g := Image(Zeros(4096), seqNo, seqNo, 3000, 3000);
            var r := Record(seqNo, 0, 0, 0, 0, OP_INSERT, Zeros(3440));
            && HasRoomFor(g, Size(r)) && !EmptyFits(g, Size(r))
            && ScanValid(crc, AppendImage(FramingOf(crc), g, r)) == Scan([], true)
  {
    hide Header;
    var fr := FramingOf(crc);
    var g := Image(Zeros(4096), seqNo, seqNo, 3000, 3000);
    var r := Record(seqNo, 0, 0, 0, 0, OP_INSERT, Zeros(3440));
    var f := Frame(crc, r);
    var g' := AppendImage(fr, g, r);
    assert Body(r)[HDR..] == r.payload && f[HDR..HDR + 3440] == r.payload;
    assert g'.area[3000..3004] == f[3000..3004] == Zeros(4) by {
      assert g'.area == Splice(PadArea(fr, g), 0, f);
      assert forall i :: 3000 <= i < 3004 ==> f[i] == r.payload[i - HDR];
    }
    ZeroWord(g'.area, 3000);
    assert StepAt(crc, g'.area, 3000, seqNo) == Torn;
  }

  // ---- on any bytes ----

  /** At this position there is a record of this content: its length fits, its checksum holds, it is no pad. */
  predicate Intact(crc: Checksum, a: seq<byte>, pos: nat, r: Record) {
    && pos + MIN_RECORD <= |a|
    && var total := U32At(a, pos);
    && MIN_RECORD <= total && pos + total <= |a| && CrcOk(crc, a, pos, total)
    && r.op != OP_PAD && Size(r) <= total && |r.payload| == U32At(a, pos + 4)
    && r == RecordAt(a, pos, |r.payload|)
  }

  /** A length that fits stands there. */
  predicate FramedAt(a: seq<byte>, pos: nat)
    requires pos + MIN_RECORD <= |a|
  {
    MIN_RECORD <= U32At(a, pos) <= |a| - pos
  }

  /** And the checksum of that many bytes holds. */
  predicate ChecksAt(crc: Checksum, a: seq<byte>, pos: nat)
    requires pos + MIN_RECORD <= |a|
  {
    FramedAt(a, pos) && CrcOk(crc, a, pos, U32At(a, pos))
  }

  /** A pad whose length fits, torn or not. */
  predicate PadAt(a: seq<byte>, pos: nat)
    requires pos + MIN_RECORD <= |a|
  {
    FramedAt(a, pos) && a[pos + 48] == OP_PAD
  }

  /** What either scan makes of any bytes: pads are skipped, a record is delivered exactly if it is intact and has the
      number that is due, and of the rest what fails its checksum is the torn end, what passes it is damage. */
  lemma StepJudges(crc: Checksum, a: seq<byte>, pos: nat, want: nat)
    requires pos + MIN_RECORD <= |a|
    ensures var s := StepAt(crc, a, pos, want);
      && (s.Skip? <==> PadAt(a, pos))
      && (s.Found? <==> !PadAt(a, pos) && exists r :: Intact(crc, a, pos, r) && r.seqNo == want)
      && (s.Torn? <==> !PadAt(a, pos) && !ChecksAt(crc, a, pos))
  {
    if StepAt(crc, a, pos, want).Found? { FoundIntact(crc, a, pos, want); }
  }

  lemma FoundIntact(crc: Checksum, a: seq<byte>, pos: nat, want: nat)
    requires pos < |a| && StepAt(crc, a, pos, want).Found?
    ensures Intact(crc, a, pos, StepAt(crc, a, pos, want).rec) && StepAt(crc, a, pos, want).rec.seqNo == want
  {
  }

  lemma {:induction false} ViewsIntact(crc: Checksum, a: seq<byte>, headPos: nat, max: nat, pos: nat, want: nat,
                                       steps: nat, first: bool, i: nat)
    requires steps <= max
    requires i < |ScanFrom(StepperOf(crc, a), headPos, max, pos, want, steps, first).views|
    ensures var r := ScanFrom(StepperOf(crc, a), headPos, max, pos, want, steps, first).views[i].rec;
      r.seqNo == want + i && exists p: nat :: Intact(crc, a, p, r)
    decreases max - steps
  {
    var step := StepperOf(crc, a);
    match step(pos, want)
    case Skip(next) => ViewsIntact(crc, a, headPos, max, next, want, steps + 1, false, i);
    case Found(r, next) =>
      FoundIntact(crc, a, pos, want);
      if i > 0 {
        ViewsIntact(crc, a, headPos, max, next, want + 1, steps + 1, false, i - 1);
      }
    case _ =>
  }

  /** Whatever bytes the area has: what the scan delivers are whole records whose checksums hold, numbered without a gap
      from the tail on. */
  lemma ScanIntact(crc: Checksum, g: Image, i: nat)
    requires Shape(g) && i < |ScanValid(crc, g).views|
    ensures var r := ScanValid(crc, g).views[i].rec;
      r.seqNo == g.tailSeq + i && exists p: nat :: Intact(crc, g.area, p, r)
  {
    ViewsIntact(crc, g.area, g.headPos, MaxSteps(|g.area|), g.tailPos, g.tailSeq, 0, true, i);
  }

  // ---- on a ring whose later part is damaged ----

  /** The two areas are the same as far as distance d behind the tail. */
  predicate SameUpTo(g: Image, a: seq<byte>, d: int) {
    |a| == |g.area| && forall p :: 0 <= p < |a| && Dist(g, p) < d ==> a[p] == g.area[p]
  }

  lemma SameSlice(g: Image, a: seq<byte>, d: int, s: nat, e: nat)
    requires Shape(g) && SameUpTo(g, a, d) && s <= e <= |a| && Dist(g, s) + (e - s) <= d
    ensures a[s..e] == g.area[s..e]
  {
    forall p | s <= p < e ensures a[p] == g.area[p] {
      assert Dist(g, p) < d;
    }
  }

  lemma SlotDist(fr: Framing, g: Image, ss: seq<Slot>, i: nat, k: nat)
    requires Holds(fr, g, ss) && i < k < |ss|
    ensures Dist(g, ss[i].pos) + Size(ss[i].rec) <= Dist(g, ss[k].pos)
  {
  }

  lemma EarlierFound(crc: Checksum, g: Image, ss: seq<Slot>, a: seq<byte>, k: nat, i: nat)
    requires Holds(FramingOf(crc), g, ss) && i < k < |ss| && SameUpTo(g, a, Dist(g, ss[k].pos))
    ensures StepperOf(crc, a)(ss[i].pos, g.tailSeq + i) == Found(ss[i].rec, Norm(|g.area|, EndOf(ss[i])))
  {
    hide Holds, StepAt, Size, FramingOf, SameUpTo;
    var fr, g' := FramingOf(crc), g.(area := a);
    SlotThere(fr, g, ss, i);
    SlotDist(fr, g, ss, i, k);
    SameLengths(g, a, Dist(g, ss[k].pos));
    SameSlice(g, a, Dist(g, ss[k].pos), ss[i].pos, EndOf(ss[i]));
    assert SlotOk(fr, g', ss[i], g.tailSeq + i);
    StepAtSlot(crc, g', ss[i], g.tailSeq + i);
  }

  lemma SlotThere(fr: Framing, g: Image, ss: seq<Slot>, i: nat)
    requires Holds(fr, g, ss) && i < |ss|
    ensures Shape(g) && SlotOk(fr, g, ss[i], g.tailSeq + i) && EndOf(ss[i]) <= |g.area| && ss[i].pos < |g.area|
  {
    SlotSpacing(fr, g, ss, i);
  }

  lemma SameLengths(g: Image, a: seq<byte>, d: int)
    requires SameUpTo(g, a, d)
    ensures |a| == |g.area|
  {
  }

  lemma EarlierGap(crc: Checksum, g: Image, ss: seq<Slot>, a: seq<byte>, k: nat, i: nat)
    requires Holds(FramingOf(crc), g, ss) && i <= k < |ss| && SameUpTo(g, a, Dist(g, ss[k].pos)) && GapBefore(g, ss, i)
    ensures StepperOf(crc, a)(EntryPos(g.tailPos, Views(|g.area|, ss), i), g.tailSeq + i) == Skip(0)
  {
    hide Holds, StepAt, Size, FramingOf, SameUpTo, Views;
    var fr, g' := FramingOf(crc), g.(area := a);
    var e := EntryPos(g.tailPos, Views(|g.area|, ss), i);
    SlotThere(fr, g, ss, i);
    GapFacts(fr, g, ss, i);
    GapDist(fr, g, ss, i);
    if i < k { SlotDist(fr, g, ss, i, k); }
    SameLengths(g, a, Dist(g, ss[k].pos));
    SameSlice(g, a, Dist(g, ss[k].pos), e, |a|);
    GapSame(fr, g.area, a, e);
    StepAtGap(crc, g', e, g.tailSeq + i);
  }

  lemma GapSame(fr: Framing, a: seq<byte>, b: seq<byte>, p: nat)
    requires Gap(fr, a, p) && |a| == |b| && a[p..|a|] == b[p..|b|]
    ensures Gap(fr, b, p)
  {
  }

  /** The steps up to damaged record k are those of the whole ring. */
  lemma EarlierSteps(crc: Checksum, g: Image, ss: seq<Slot>, a: seq<byte>, k: nat, i: nat)
    requires Holds(FramingOf(crc), g, ss) && i <= k < |ss| && SameUpTo(g, a, Dist(g, ss[k].pos))
    ensures i < k ==> StepsRight(StepperOf(crc, a), g, ss, i)
    ensures GapBefore(g, ss, i) ==>
      StepperOf(crc, a)(EntryPos(g.tailPos, Views(|g.area|, ss), i), g.tailSeq + i) == Skip(0)
  {
    hide Holds, StepAt, SameUpTo;
    if i < k { EarlierFound(crc, g, ss, a, k, i); }
    if GapBefore(g, ss, i) { EarlierGap(crc, g, ss, a, k, i); }
  }

  lemma GapDist(fr: Framing, g: Image, ss: seq<Slot>, i: nat)
    requires Holds(fr, g, ss) && i < |ss| && GapBefore(g, ss, i)
    ensures var e := EntryPos(g.tailPos, Views(|g.area|, ss), i);
      e < |g.area| && Dist(g, e) + (|g.area| - e) <= Dist(g, ss[i].pos)
  {
    GapFacts(fr, g, ss, i);
    SlotSpacing(fr, g, ss, i);
    if i > 0 {
      BetweenSlots(fr, g, ss, i);
      SlotSpacing(fr, g, ss, i - 1);
    }
  }

  /** Where a scan breaks off: the way to record k is right, and the step there is not. */
  ghost predicate BreaksAt(step: Stepper, t: Route, k: nat, s: Step)
    requires |t.starts| == |t.views| && k < |t.starts|
  {
    var entry := EntryPos(t.tailPos, t.views, k);
    && (s.Torn? || s.Bad?) && step(t.starts[k], t.tailSeq + k) == s
    && (k > 0 ==> entry != t.headPos && t.starts[k] != t.headPos)
    && (k != t.gap ==> entry == t.starts[k])
    && (k == t.gap ==> t.starts[k] != t.headPos && step(entry, t.tailSeq + k) == Skip(t.starts[k]))
  }

  lemma {:induction false} RouteBreaks(step: Stepper, t: Route, max: nat, k: nat, s: Step, i: nat, steps: nat,
                                       first: bool)
    requires |t.starts| == |t.views| && i <= k < |t.starts| && BreaksAt(step, t, k, s) && (first <==> i == 0)
    requires forall j :: 0 <= j < k ==> RouteAt(step, t, j)
    requires |t.starts| + 1 < max && steps <= i + (if t.gap < i then 1 else 0)
    ensures ScanFrom(step, t.headPos, max, EntryPos(t.tailPos, t.views, i), t.tailSeq + i, steps, first)
         == Scan(t.views[i..k], s.Torn?)
    decreases k - i, 1
  {
    if i < k { assert RouteAt(step, t, i); }
    if i == t.gap {
      RouteBreaksOn(step, t, max, k, s, i, steps + 1, false);
    } else {
      RouteBreaksOn(step, t, max, k, s, i, steps, first);
    }
  }

  lemma {:induction false} RouteBreaksOn(step: Stepper, t: Route, max: nat, k: nat, s: Step, i: nat, steps: nat,
                                         first: bool)
    requires |t.starts| == |t.views| && i <= k < |t.starts| && BreaksAt(step, t, k, s)
    requires first || t.starts[i] != t.headPos
    requires forall j :: 0 <= j < k ==> RouteAt(step, t, j)
    requires |t.starts| + 1 < max && steps <= i + (if t.gap <= i then 1 else 0)
    ensures ScanFrom(step, t.headPos, max, t.starts[i], t.tailSeq + i, steps, first) == Scan(t.views[i..k], s.Torn?)
    decreases k - i, 0
  {
    if i < k {
      assert RouteAt(step, t, i);
      RouteBreaks(step, t, max, k, s, i + 1, steps + 1, false);
      assert t.views[i..k] == [t.views[i]] + t.views[i + 1..k];
      assert View(t.views[i].rec, t.views[i].endPos) == t.views[i];
    }
  }

  /** When everything from record k on may be damaged, and in the place of record k there is no intact record of its
      number, nor a pad, the scan delivers exactly the records before it: with a complaint only if the checksum of what
      stands there holds. */
  lemma DamageEnds(crc: Checksum, g: Image, ss: seq<Slot>, a: seq<byte>, k: nat)
    requires Shape(g) && Holds(FramingOf(crc), g, ss) && k < |ss| && SameUpTo(g, a, Dist(g, ss[k].pos))
    requires ss[k].pos + MIN_RECORD <= |a| && !PadAt(a, ss[k].pos)
    requires forall r :: Intact(crc, a, ss[k].pos, r) ==> r.seqNo != g.tailSeq + k
    ensures ScanValid(crc, g.(area := a)) == Scan(Views(|g.area|, ss)[..k], !ChecksAt(crc, a, ss[k].pos))
  {
    hide Holds, StepAt, FramingOf, RouteAt, BreaksAt, SameUpTo, Intact, ChecksAt, PadAt;
    StepJudges(crc, a, ss[k].pos, g.tailSeq + k);
    var step, t, fr := StepperOf(crc, a), RouteOf(g, ss), FramingOf(crc);
    forall i | 0 <= i < k ensures RouteAt(step, t, i) {
      EarlierSteps(crc, g, ss, a, k, i);
      HeldRouteAt(step, fr, g, ss, i);
    }
    HeldBreaks(crc, g, ss, a, k);
    HeldEnds(fr, g, ss);
    HeadAhead(fr, g, ss);
    SameLengths(g, a, Dist(g, ss[k].pos));
    RouteBreaks(step, t, MaxSteps(|g.area|), k, StepAt(crc, a, ss[k].pos, g.tailSeq + k), 0, 0, true);
    assert t.views[0..k] == t.views[..k];
  }

  lemma HeldBreaks(crc: Checksum, g: Image, ss: seq<Slot>, a: seq<byte>, k: nat)
    requires Shape(g) && Holds(FramingOf(crc), g, ss) && k < |ss| && SameUpTo(g, a, Dist(g, ss[k].pos))
    requires ss[k].pos < |a|
    requires StepAt(crc, a, ss[k].pos, g.tailSeq + k).Torn? || StepAt(crc, a, ss[k].pos, g.tailSeq + k).Bad?
    ensures BreaksAt(StepperOf(crc, a), RouteOf(g, ss), k, StepAt(crc, a, ss[k].pos, g.tailSeq + k))
  {
    hide Holds, StepAt, FramingOf, SameUpTo;
    EarlierSteps(crc, g, ss, a, k, k);
    HeldGap(FramingOf(crc), g, ss, k);
    assert GapIndex(g, ss) == k ==> GapBefore(g, ss, k);
  }

  lemma HeadAhead(fr: Framing, g: Image, ss: seq<Slot>)
    requires Holds(fr, g, ss) && ss != []
    ensures g.headSeq != g.tailSeq
  {
  }
}
