/** The ring as a value: its area and the four header fields that move (wal_ring.hpp:132-145),
    the space test, what one append does, and what it means for the ring to hold a record
    sequence. */
module WalImage {
  import opened LittleEndian
  import opened WalFormat

  const MIN_AREA: nat := 4096
  const MAX_AREA: nat := 64 * 1024 * 1024

  datatype Image = Image(area: seq<byte>, headSeq: nat, tailSeq: nat, headPos: nat, tailPos: nat)

  predicate Shape(g: Image) {
    && MIN_AREA <= |g.area| <= MAX_AREA
    && g.headPos < |g.area| && g.tailPos < |g.area|
    && 1 <= g.tailSeq <= g.headSeq
  }

  function PendingBytes(g: Image): nat
    requires Shape(g)
  {
    if g.headSeq == g.tailSeq then 0
    else if g.headPos > g.tailPos then g.headPos - g.tailPos
    else |g.area| - g.tailPos + g.headPos
  }

  predicate HasRoomFor(g: Image, bytes: nat)
    requires Shape(g)
  {
    && bytes <= |g.area|
    && (PendingBytes(g) == 0
        || (&& |g.area| - PendingBytes(g) >= bytes
            && !(|g.area| - g.headPos < bytes && bytes > g.tailPos)))
  }

  /** A position one past the end of the area is the start of the area. */
  function Norm(n: nat, p: nat): nat {
    if p >= n then 0 else p
  }

  predicate Wraps(g: Image, bytes: nat) {
    |g.area| < g.headPos + bytes
  }

  function PadArea(fr: Framing, g: Image): (a: seq<byte>)
    requires Shape(g)
    ensures |a| == |g.area|
  {
    var room := |g.area| - g.headPos;
    if room >= MIN_RECORD then Splice(g.area, g.headPos, fr(PadRecord(room))) else g.area
  }

  function Place(g: Image, bytes: nat): nat {
    if Wraps(g, bytes) then 0 else g.headPos
  }

  function AppendImage(fr: Framing, g: Image, r: Record): (g': Image)
    requires Shape(g) && Size(r) <= |g.area|
    ensures Shape(g')
  {
    var a := if Wraps(g, Size(r)) then PadArea(fr, g) else g.area;
    var p := Place(g, Size(r));
    Image(Splice(a, p, fr(r)), g.headSeq + 1, g.tailSeq, Norm(|a|, p + Size(r)), g.tailPos)
  }

  // ---- holding a record sequence ----

  datatype Slot = Slot(pos: nat, rec: Record)

  function Records(ss: seq<Slot>): (rs: seq<Record>)
    ensures |rs| == |ss| && forall i :: 0 <= i < |ss| ==> rs[i] == ss[i].rec
  {
    seq(|ss|, i requires 0 <= i < |ss| => ss[i].rec)
  }

  /** How far a position lies behind the tail, going round the ring. */
  function Behind(n: nat, tailPos: nat, p: nat): int {
    if p >= tailPos then p - tailPos else p + n - tailPos
  }

  function Dist(g: Image, p: nat): int {
    Behind(|g.area|, g.tailPos, p)
  }

  function EndOf(s: Slot): nat {
    s.pos + Size(s.rec)
  }

  /** From p to the end of the area there is no record: too short for one, or one pad. */
  predicate Gap(fr: Framing, a: seq<byte>, p: nat) {
    p < |a| && (|a| - p < MIN_RECORD || FrameAt(fr, a, p, PadRecord(|a| - p)))
  }

  /** The record after position p starts at q, here or at the start of the area behind a gap. */
  predicate Hop(fr: Framing, a: seq<byte>, p: nat, q: nat) {
    q == p || (q == 0 < p && Gap(fr, a, p))
  }

  predicate SlotOk(fr: Framing, g: Image, s: Slot, seqNo: nat)
    requires Shape(g)
  {
    && s.rec.seqNo == seqNo && s.rec.op != OP_PAD
    && FrameAt(fr, g.area, s.pos, s.rec)
    && Dist(g, s.pos) + Size(s.rec) <= PendingBytes(g)
  }

  ghost predicate SlotsOk(fr: Framing, g: Image, ss: seq<Slot>)
    requires Shape(g)
  {
    forall i :: 0 <= i < |ss| ==> SlotOk(fr, g, ss[i], g.tailSeq + i)
  }

  ghost predicate Ordered(n: nat, tailPos: nat, ss: seq<Slot>) {
    forall i, j :: 0 <= i < j < |ss| ==>
      Behind(n, tailPos, ss[i].pos) + Size(ss[i].rec) <= Behind(n, tailPos, ss[j].pos)
  }

  /** Slot i follows slot i - 1. */
  predicate LinkAt(fr: Framing, a: seq<byte>, ss: seq<Slot>, i: nat)
    requires 0 < i < |ss|
  {
    Hop(fr, a, Norm(|a|, EndOf(ss[i - 1])), ss[i].pos)
  }

  ghost predicate Linked(fr: Framing, a: seq<byte>, ss: seq<Slot>) {
    forall i :: 0 < i < |ss| ==> LinkAt(fr, a, ss, i)
  }

  ghost predicate Ends(fr: Framing, g: Image, ss: seq<Slot>)
    requires Shape(g)
  {
    if ss == [] then g.headPos == g.tailPos
    else
      && Hop(fr, g.area, g.tailPos, ss[0].pos)
      && g.headPos == Norm(|g.area|, EndOf(ss[|ss| - 1]))
      && PendingBytes(g) == Dist(g, ss[|ss| - 1].pos) + Size(ss[|ss| - 1].rec)
  }

  ghost predicate Holds(fr: Framing, g: Image, ss: seq<Slot>) {
    && Shape(g)
    && |ss| == g.headSeq - g.tailSeq
    && SlotsOk(fr, g, ss)
    && Ordered(|g.area|, g.tailPos, ss)
    && Linked(fr, g.area, ss)
    && Ends(fr, g, ss)
  }

  /** The empty ring's space test admits any record up to the area, but the tail does not move
      when the write wraps: the record must fit before the tail, or not wrap. */
  predicate EmptyFits(g: Image, bytes: nat) {
    g.headSeq == g.tailSeq ==> bytes <= g.tailPos || bytes <= |g.area| - g.headPos
  }

  // ---- one append ----

  /** Bytes of the pending stretch are not touched by an append that has room. */
  lemma AppendArea(fr: Framing, g: Image, r: Record, s: nat, e: nat)
    requires Shape(g) && HasRoomFor(g, Size(r)) && EmptyFits(g, Size(r))
    requires s <= e <= |g.area| && g.headSeq > g.tailSeq
    requires Dist(g, s) + (e - s) <= PendingBytes(g)
    ensures AppendImage(fr, g, r).area[s..e] == g.area[s..e]
  {
    var c := Size(r);
    if s < e {
      if Wraps(g, c) {
        var room := |g.area| - g.headPos;
        if room >= MIN_RECORD {
          SpliceOutside(g.area, g.headPos, fr(PadRecord(room)), s, e);
        }
        SpliceOutside(PadArea(fr, g), 0, fr(r), s, e);
      } else {
        SpliceOutside(g.area, g.headPos, fr(r), s, e);
      }
    }
  }

  /** Where the header fields of the new image put the record, in distance from the tail. */
  lemma AppendSpan(fr: Framing, g: Image, r: Record)
    requires Shape(g) && HasRoomFor(g, Size(r)) && EmptyFits(g, Size(r))
    requires g.headSeq == g.tailSeq ==> g.headPos == g.tailPos
    ensures var g' := AppendImage(fr, g, r); var p := Place(g, Size(r));
      && PendingBytes(g') == Dist(g, p) + Size(r)
      && PendingBytes(g) <= Dist(g, p)
      && g'.headPos == Norm(|g.area|, p + Size(r))
      && (p != g.headPos ==> p == 0 && |g.area| - g.headPos < Size(r) <= g.headPos)
  {
  }

  lemma AppendGap(fr: Framing, g: Image, r: Record)
    requires Shape(g) && Size(r) <= g.headPos && Wraps(g, Size(r))
    ensures Gap(fr, AppendImage(fr, g, r).area, g.headPos)
  {
    var room := |g.area| - g.headPos;
    if room >= MIN_RECORD {
      assert PadArea(fr, g)[g.headPos..g.headPos + room] == fr(PadRecord(room));
      SpliceOutside(PadArea(fr, g), 0, fr(r), g.headPos, |g.area|);
    }
  }

  lemma AppendSlot(fr: Framing, g: Image, r: Record)
    requires Shape(g) && HasRoomFor(g, Size(r)) && EmptyFits(g, Size(r))
    requires r.seqNo == g.headSeq && r.op != OP_PAD
    requires g.headSeq == g.tailSeq ==> g.headPos == g.tailPos
    ensures var g' := AppendImage(fr, g, r); var s := Slot(Place(g, Size(r)), r);
      && SlotOk(fr, g', s, g.headSeq)
      && PendingBytes(g') == Dist(g', s.pos) + Size(r)
      && PendingBytes(g) <= Dist(g', s.pos)
      && g'.headPos == Norm(|g.area|, EndOf(s))
      && Hop(fr, g'.area, g.headPos, s.pos)
  {
    AppendSpan(fr, g, r);
    if Wraps(g, Size(r)) {
      AppendGap(fr, g, r);
    }
  }

  lemma HopKept(fr: Framing, g: Image, r: Record, p: nat, q: nat)
    requires Shape(g) && HasRoomFor(g, Size(r)) && EmptyFits(g, Size(r)) && g.headSeq > g.tailSeq
    requires p < |g.area| && Hop(fr, g.area, p, q)
    requires q != p ==> Dist(g, p) + (|g.area| - p) <= PendingBytes(g)
    ensures Hop(fr, AppendImage(fr, g, r).area, p, q)
  {
    if q != p {
      AppendArea(fr, g, r, p, |g.area|);
    }
  }

  lemma SlotsTransfer(fr: Framing, g: Image, g': Image, ss: seq<Slot>)
    requires Shape(g) && Shape(g') && SlotsOk(fr, g, ss)
    requires forall i :: 0 <= i < |ss| ==> EndOf(ss[i]) <= |g.area|
    requires |g'.area| == |g.area| && g'.tailPos == g.tailPos && g'.tailSeq == g.tailSeq
    requires forall i :: 0 <= i < |ss| ==>
      && Dist(g, ss[i].pos) + Size(ss[i].rec) <= PendingBytes(g')
      && g'.area[ss[i].pos..EndOf(ss[i])] == g.area[ss[i].pos..EndOf(ss[i])]
    ensures SlotsOk(fr, g', ss)
  {
    forall i | 0 <= i < |ss| ensures SlotOk(fr, g', ss[i], g'.tailSeq + i) {
      assert SlotOk(fr, g, ss[i], g.tailSeq + i);
    }
  }

  lemma AppendSlots(fr: Framing, g: Image, ss: seq<Slot>, r: Record)
    requires Holds(fr, g, ss) && HasRoomFor(g, Size(r)) && EmptyFits(g, Size(r))
    requires r.seqNo == g.headSeq && r.op != OP_PAD
    ensures SlotsOk(fr, AppendImage(fr, g, r), ss)
  {
    var g' := AppendImage(fr, g, r);
    AppendSpan(fr, g, r);
    forall i | 0 <= i < |ss|
      ensures Dist(g, ss[i].pos) + Size(ss[i].rec) <= PendingBytes(g')
      ensures EndOf(ss[i]) <= |g.area|
      ensures g'.area[ss[i].pos..EndOf(ss[i])] == g.area[ss[i].pos..EndOf(ss[i])]
    {
      assert SlotOk(fr, g, ss[i], g.tailSeq + i);
      AppendArea(fr, g, r, ss[i].pos, EndOf(ss[i]));
    }
    SlotsTransfer(fr, g, g', ss);
  }

  lemma AppendOrdered(fr: Framing, g: Image, ss: seq<Slot>, r: Record)
    requires Shape(g) && Size(r) <= |g.area| && SlotsOk(fr, g, ss) && Ordered(|g.area|, g.tailPos, ss)
    requires PendingBytes(g) <= Dist(g, Place(g, Size(r)))
    ensures Ordered(|g.area|, g.tailPos, ss + [Slot(Place(g, Size(r)), r)])
  {
    forall i | 0 <= i < |ss|
      ensures Dist(g, ss[i].pos) + Size(ss[i].rec) <= Dist(g, Place(g, Size(r)))
    {
      assert SlotOk(fr, g, ss[i], g.tailSeq + i);
    }
  }

  lemma OldLinkKept(fr: Framing, g: Image, ss: seq<Slot>, r: Record, i: nat)
    requires Holds(fr, g, ss) && HasRoomFor(g, Size(r)) && EmptyFits(g, Size(r)) && 0 < i < |ss|
    ensures LinkAt(fr, AppendImage(fr, g, r).area, ss, i)
  {
    hide AppendImage, EmptyFits;
    assert LinkAt(fr, g.area, ss, i);
    assert SlotOk(fr, g, ss[i], g.tailSeq + i);
    assert SlotOk(fr, g, ss[i - 1], g.tailSeq + (i - 1));
    HopKept(fr, g, r, Norm(|g.area|, EndOf(ss[i - 1])), ss[i].pos);
    SameLength(fr, g, r);
  }

  lemma SameLength(fr: Framing, g: Image, r: Record)
    requires Shape(g) && Size(r) <= |g.area|
    ensures |AppendImage(fr, g, r).area| == |g.area|
  {
  }

  lemma AppendLinked(fr: Framing, g: Image, ss: seq<Slot>, r: Record)
    requires Holds(fr, g, ss) && HasRoomFor(g, Size(r)) && EmptyFits(g, Size(r))
    requires r.seqNo == g.headSeq && r.op != OP_PAD
    ensures Linked(fr, AppendImage(fr, g, r).area, ss + [Slot(Place(g, Size(r)), r)])
  {
    var g' := AppendImage(fr, g, r);
    var ss' := ss + [Slot(Place(g, Size(r)), r)];
    forall i | 0 < i < |ss'| ensures LinkAt(fr, g'.area, ss', i) {
      if i < |ss| {
        OldLinkKept(fr, g, ss, r, i);
      } else {
        AppendSlot(fr, g, r);
      }
    }
  }

  /** An append with room adds exactly its record and damages no retained one. */
  lemma AppendKeeps(fr: Framing, g: Image, ss: seq<Slot>, r: Record)
    requires Holds(fr, g, ss) && HasRoomFor(g, Size(r)) && EmptyFits(g, Size(r))
    requires r.seqNo == g.headSeq && r.op != OP_PAD
    ensures Holds(fr, AppendImage(fr, g, r), ss + [Slot(Place(g, Size(r)), r)])
  {
    var g' := AppendImage(fr, g, r);
    AppendSlots(fr, g, ss, r);
    AppendLinked(fr, g, ss, r);
    AppendSlot(fr, g, r);
    AppendOrdered(fr, g, ss, r);
    if ss != [] {
      assert SlotOk(fr, g, ss[0], g.tailSeq + 0);
      HopKept(fr, g, r, g.tailPos, ss[0].pos);
    }
  }

  /** The ring's abstract value. */
  ghost predicate Retains(fr: Framing, g: Image, rs: seq<Record>) {
    exists ss: seq<Slot> :: Records(ss) == rs && Holds(fr, g, ss)
  }

  lemma RetainsIntro(fr: Framing, g: Image, ss: seq<Slot>, rs: seq<Record>)
    requires Holds(fr, g, ss) && Records(ss) == rs
    ensures Retains(fr, g, rs)
  {
  }

  lemma RecordsPush(ss: seq<Slot>, s: Slot)
    ensures Records(ss + [s]) == Records(ss) + [s.rec]
  {
    hide Size;
  }

  lemma AppendHeld(fr: Framing, g: Image, ss: seq<Slot>, r: Record)
    requires Holds(fr, g, ss) && HasRoomFor(g, Size(r)) && EmptyFits(g, Size(r))
    requires r.seqNo == g.headSeq && r.op != OP_PAD
    ensures Retains(fr, AppendImage(fr, g, r), Records(ss) + [r])
  {
    var s := Slot(Place(g, Size(r)), r);
    AppendKeeps(fr, g, ss, r);
    RecordsPush(ss, s);
    RetainsIntro(fr, AppendImage(fr, g, r), ss + [s], Records(ss) + [r]);
  }

  lemma AppendSound(fr: Framing, g: Image, rs: seq<Record>, r: Record)
    requires Retains(fr, g, rs) && HasRoomFor(g, Size(r)) && EmptyFits(g, Size(r))
    requires r.seqNo == g.headSeq && r.op != OP_PAD
    ensures Retains(fr, AppendImage(fr, g, r), rs + [r])
  {
    var ss: seq<Slot> :| Records(ss) == rs && Holds(fr, g, ss);
    AppendHeld(fr, g, ss, r);
  }

  lemma AppendOverlaps(fr: Framing, g: Image, r: Record)
    requires Shape(g) && g.headPos == g.tailPos && HasRoomFor(g, Size(r)) && !EmptyFits(g, Size(r))
    ensures PendingBytes(AppendImage(fr, g, r)) < Size(r)
    ensures !Retains(fr, AppendImage(fr, g, r), [r])
  {
    var g' := AppendImage(fr, g, r);
    assert PendingBytes(g') < Size(r);
    forall ss': seq<Slot> | Records(ss') == [r] ensures !Holds(fr, g', ss') {
      assert |ss'| == 1;
      assert ss'[0].rec == Records(ss')[0] == r;
      assert !SlotOk(fr, g', ss'[0], g'.tailSeq + 0);
    }
  }

  /** The append that the space test admits is sound exactly when the empty-ring condition holds:
      otherwise the record overlaps its own tail and the ring no longer accounts for it. */
  lemma AppendSoundIff(fr: Framing, g: Image, rs: seq<Record>, r: Record)
    requires Retains(fr, g, rs) && HasRoomFor(g, Size(r))
    requires r.seqNo == g.headSeq && r.op != OP_PAD
    ensures EmptyFits(g, Size(r)) <==> Retains(fr, AppendImage(fr, g, r), rs + [r])
  {
    if EmptyFits(g, Size(r)) {
      AppendSound(fr, g, rs, r);
    } else {
      EmptyRetains(fr, g, rs);
      AppendOverlaps(fr, g, r);
      assert [] + [r] == [r];
    }
  }

  /** Such a record exists: in an empty ring of 4096 bytes whose positions stand at 3000, one of 3500
      bytes is admitted, wraps, and ends 500 bytes past the tail it is measured from. */
  lemma OverlapExample(fr: Framing, seqNo: u64)
    requires seqNo >= 1
    ensures var g := Image(Zeros(4096), seqNo, seqNo, 3000, 3000);
            var r := Record(seqNo, 0, 0, 0, 0, OP_INSERT, Zeros(3440));
            && Retains(fr, g, []) && HasRoomFor(g, Size(r)) && !EmptyFits(g, Size(r))
            && PendingBytes(AppendImage(fr, g, r)) == 500 < Size(r)
            && !Retains(fr, AppendImage(fr, g, r), [r])
  {
    var g := Image(Zeros(4096), seqNo, seqNo, 3000, 3000);
    var r := Record(seqNo, 0, 0, 0, 0, OP_INSERT, Zeros(3440));
    RetainsIntro(fr, g, [], []);
    AppendOverlaps(fr, g, r);
  }

  lemma EmptyRetains(fr: Framing, g: Image, rs: seq<Record>)
    requires Retains(fr, g, rs) && g.headSeq == g.tailSeq
    ensures rs == [] && g.headPos == g.tailPos
  {
  }

  // ---- moving the tail ----

  function SkipGapImage(g: Image): Image {
    g.(tailPos := 0)
  }

  function DropImage(g: Image, bytes: nat): Image {
    g.(tailSeq := g.tailSeq + 1, tailPos := Norm(|g.area|, g.tailPos + bytes))
  }

  /** A gap at the tail may be skipped; it frees its bytes. */
  lemma SkipGapKeeps(fr: Framing, g: Image, ss: seq<Slot>)
    requires Holds(fr, g, ss) && ss != [] && ss[0].pos != g.tailPos
    ensures ss[0].pos == 0 && Gap(fr, g.area, g.tailPos)
    ensures Holds(fr, SkipGapImage(g), ss)
    ensures PendingBytes(SkipGapImage(g)) == PendingBytes(g) - (|g.area| - g.tailPos)
  {
    var g' := SkipGapImage(g);
    var d := |g.area| - g.tailPos;
    assert SlotOk(fr, g, ss[0], g.tailSeq + 0);
    forall i | 0 <= i < |ss| ensures Dist(g', ss[i].pos) == Dist(g, ss[i].pos) - d {
      assert SlotOk(fr, g, ss[i], g.tailSeq + i);
      if i > 0 {
        assert Dist(g, ss[0].pos) + Size(ss[0].rec) <= Dist(g, ss[i].pos);
      }
    }
    forall i | 0 <= i < |ss| ensures SlotOk(fr, g', ss[i], g'.tailSeq + i) {
      assert SlotOk(fr, g, ss[i], g.tailSeq + i);
    }
  }

  lemma DropDist(fr: Framing, g: Image, ss: seq<Slot>)
    requires Holds(fr, g, ss) && ss != [] && ss[0].pos == g.tailPos
    ensures var g' := DropImage(g, Size(ss[0].rec));
      && (forall i :: 1 <= i < |ss| ==> Dist(g', ss[i].pos) == Dist(g, ss[i].pos) - Size(ss[0].rec))
      && PendingBytes(g') == PendingBytes(g) - Size(ss[0].rec)
      && (|ss| == 1 ==> g'.headPos == g'.tailPos)
  {
    var d := Size(ss[0].rec);
    var g' := DropImage(g, d);
    assert SlotOk(fr, g, ss[0], g.tailSeq + 0);
    forall i | 1 <= i < |ss| ensures Dist(g', ss[i].pos) == Dist(g, ss[i].pos) - d {
      assert SlotOk(fr, g, ss[i], g.tailSeq + i);
      assert Dist(g, ss[0].pos) + d <= Dist(g, ss[i].pos);
    }
    if |ss| > 1 {
      assert SlotOk(fr, g, ss[|ss| - 1], g.tailSeq + (|ss| - 1));
      assert Dist(g, ss[0].pos) + d <= Dist(g, ss[|ss| - 1].pos);
    }
  }

  lemma DropSlots(fr: Framing, g: Image, ss: seq<Slot>)
    requires Holds(fr, g, ss) && ss != [] && ss[0].pos == g.tailPos
    ensures SlotsOk(fr, DropImage(g, Size(ss[0].rec)), ss[1..])
  {
    var g' := DropImage(g, Size(ss[0].rec));
    var tt := ss[1..];
    DropDist(fr, g, ss);
    forall i | 0 <= i < |tt| ensures SlotOk(fr, g', tt[i], g'.tailSeq + i) {
      assert SlotOk(fr, g, ss[i + 1], g.tailSeq + (i + 1));
    }
  }

  lemma DropOrdered(fr: Framing, g: Image, ss: seq<Slot>)
    requires Holds(fr, g, ss) && ss != [] && ss[0].pos == g.tailPos
    ensures var g' := DropImage(g, Size(ss[0].rec)); Ordered(|g'.area|, g'.tailPos, ss[1..])
  {
    var g' := DropImage(g, Size(ss[0].rec));
    var tt := ss[1..];
    DropDist(fr, g, ss);
    forall i, j | 0 <= i < j < |tt|
      ensures Dist(g', tt[i].pos) + Size(tt[i].rec) <= Dist(g', tt[j].pos)
    {
      assert Dist(g, ss[i + 1].pos) + Size(ss[i + 1].rec) <= Dist(g, ss[j + 1].pos);
    }
  }

  /** Dropping the oldest record keeps the rest of the sequence. */
  lemma DropKeeps(fr: Framing, g: Image, ss: seq<Slot>)
    requires Holds(fr, g, ss) && ss != [] && ss[0].pos == g.tailPos
    ensures var g' := DropImage(g, Size(ss[0].rec));
      Holds(fr, g', ss[1..]) && PendingBytes(g') == PendingBytes(g) - Size(ss[0].rec)
  {
    DropDist(fr, g, ss);
    DropSlots(fr, g, ss);
    LinkedSlice(fr, g.area, ss, 1, |ss|);
    DropOrdered(fr, g, ss);
    assert ss[1..|ss|] == ss[1..];
    assert Ends(fr, DropImage(g, Size(ss[0].rec)), ss[1..]) by {
      if |ss| > 1 {
        assert LinkAt(fr, g.area, ss, 1);
        assert SlotOk(fr, g, ss[0], g.tailSeq + 0);
      }
    }
  }

  lemma LinkedSlice(fr: Framing, a: seq<byte>, ss: seq<Slot>, lo: nat, hi: nat)
    requires lo <= hi <= |ss| && Linked(fr, a, ss)
    ensures Linked(fr, a, ss[lo..hi])
  {
    var tt := ss[lo..hi];
    forall i | 0 < i < |tt| ensures LinkAt(fr, a, tt, i) {
      assert LinkAt(fr, a, ss, lo + i);
      assert tt[i] == ss[lo + i] && tt[i - 1] == ss[lo + i - 1];
    }
  }

  lemma OrderedSlice(n: nat, t: nat, ss: seq<Slot>, lo: nat, hi: nat)
    requires lo <= hi <= |ss| && Ordered(n, t, ss)
    ensures Ordered(n, t, ss[lo..hi])
  {
    var tt := ss[lo..hi];
    forall i, j | 0 <= i < j < |tt|
      ensures Behind(n, t, tt[i].pos) + Size(tt[i].rec) <= Behind(n, t, tt[j].pos)
    {
      assert Behind(n, t, ss[lo + i].pos) + Size(ss[lo + i].rec) <= Behind(n, t, ss[lo + j].pos);
    }
  }

  // ---- moving the head back ----

  function RewindImage(g: Image, nextSeq: nat, nextPos: nat): Image {
    g.(headSeq := nextSeq, headPos := nextPos)
  }

  lemma RewoundSlot(fr: Framing, g: Image, ss: seq<Slot>, k: nat, i: nat)
    requires Holds(fr, g, ss) && i < k <= |ss|
    ensures Dist(g, ss[i].pos) + Size(ss[i].rec) <= Dist(g, ss[k - 1].pos) + Size(ss[k - 1].rec)
    ensures EndOf(ss[i]) <= |g.area| && SlotOk(fr, g, ss[i], g.tailSeq + i)
  {
    assert SlotOk(fr, g, ss[i], g.tailSeq + i);
    if i < k - 1 {
      assert Dist(g, ss[i].pos) + Size(ss[i].rec) <= Dist(g, ss[k - 1].pos);
    }
  }

  lemma RewoundTo(fr: Framing, g: Image, ss: seq<Slot>, k: nat)
    requires Holds(fr, g, ss) && 0 < k <= |ss|
    ensures Shape(g) && k <= g.headSeq - g.tailSeq
    ensures var g' := RewindImage(g, g.tailSeq + k, Norm(|g.area|, EndOf(ss[k - 1])));
      Shape(g') && PendingBytes(g') == Dist(g, ss[k - 1].pos) + Size(ss[k - 1].rec)
  {
    assert SlotOk(fr, g, ss[k - 1], g.tailSeq + (k - 1));
  }

  lemma RewindSlots(fr: Framing, g: Image, ss: seq<Slot>, k: nat)
    requires Holds(fr, g, ss) && 0 < k <= |ss|
    ensures var g' := RewindImage(g, g.tailSeq + k, Norm(|g.area|, EndOf(ss[k - 1])));
      && Shape(g')
      && PendingBytes(g') == Dist(g, ss[k - 1].pos) + Size(ss[k - 1].rec)
      && SlotsOk(fr, g', ss[..k])
  {
    hide Holds, SlotOk;
    var g' := RewindImage(g, g.tailSeq + k, Norm(|g.area|, EndOf(ss[k - 1])));
    RewoundTo(fr, g, ss, k);
    forall i | 0 <= i < k
      ensures Dist(g, ss[i].pos) + Size(ss[i].rec) <= PendingBytes(g')
      ensures EndOf(ss[i]) <= |g.area|
      ensures SlotOk(fr, g, ss[..k][i], g.tailSeq + i)
    {
      RewoundSlot(fr, g, ss, k, i);
    }
    SlotsTransfer(fr, g, g', ss[..k]);
  }

  /** Rewinding the head behind record k keeps exactly the first k records. */
  lemma RewindKeeps(fr: Framing, g: Image, ss: seq<Slot>, k: nat)
    requires Holds(fr, g, ss) && 0 < k <= |ss|
    ensures Holds(fr, RewindImage(g, g.tailSeq + k, Norm(|g.area|, EndOf(ss[k - 1]))), ss[..k])
  {
    hide SlotsOk, Linked, Ordered, Hop;
    var g' := RewindImage(g, g.tailSeq + k, Norm(|g.area|, EndOf(ss[k - 1])));
    var tt := ss[..k];
    assert tt == ss[0..k];
    RewindSlots(fr, g, ss, k);
    LinkedSlice(fr, g.area, ss, 0, k);
    OrderedSlice(|g.area|, g.tailPos, ss, 0, k);
    assert tt[0] == ss[0] && tt[k - 1] == ss[k - 1];
    assert Ends(fr, g', tt);
  }
}
