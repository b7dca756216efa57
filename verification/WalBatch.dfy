/** When a batch of records lands in the ring: the reservation of engine.cpp:312-322 asks for room
    for the sum of the records once and then appends them one by one. */
module WalBatch {
  import opened WalFormat
  import opened WalImage

  function Total(rs: seq<Record>): nat {
    if rs == [] then 0 else Size(rs[0]) + Total(rs[1..])
  }

  lemma {:induction false} TotalSplit(rs: seq<Record>, j: nat)
    requires j <= |rs|
    ensures Total(rs) == Total(rs[..j]) + Total(rs[j..])
  {
    if j > 0 {
      TotalSplit(rs[1..], j - 1);
      assert rs[..j][1..] == rs[1..][..j - 1] && rs[j..] == rs[1..][j - 1..];
    } else {
      assert rs[0..] == rs && Total(rs[..0]) == 0;
    }
  }

  /** The batch can be cut so that a first part fits behind the head and the rest before the tail;
      once the head has wrapped there is only the stretch up to the tail. */
  ghost predicate Splits(g: Image, rs: seq<Record>)
    requires Shape(g)
  {
    if g.headSeq == g.tailSeq || g.headPos > g.tailPos then
      exists j :: 0 <= j <= |rs| && CutAt(g, rs, j)
    else
      Total(rs) <= g.tailPos - g.headPos
  }

  predicate CutAt(g: Image, rs: seq<Record>, j: nat)
    requires j <= |rs|
  {
    Total(rs[..j]) <= |g.area| - g.headPos && Total(rs[j..]) <= g.tailPos
  }

  /** Every append of the batch is admitted and damages nothing. */
  ghost predicate Lands(fr: Framing, g: Image, rs: seq<Record>)
    requires Shape(g)
    decreases |rs|
  {
    rs == [] || (&& HasRoomFor(g, Size(rs[0])) && EmptyFits(g, Size(rs[0]))
                 && Lands(fr, AppendImage(fr, g, rs[0]), rs[1..]))
  }

  lemma CutTail(rs: seq<Record>, j: nat)
    requires rs != [] && j < |rs|
    ensures rs[..j + 1][1..] == rs[1..][..j] && rs[j + 1..] == rs[1..][j..]
    ensures Total(rs[..j + 1]) == Size(rs[0]) + Total(rs[1..][..j])
  {
    assert rs[..j + 1][1..] == rs[1..][..j];
  }

  lemma SplitsStep(fr: Framing, g: Image, rs: seq<Record>)
    requires Shape(g) && rs != []
    requires g.headSeq == g.tailSeq ==> g.headPos == g.tailPos
    requires Splits(g, rs)
    ensures HasRoomFor(g, Size(rs[0])) && EmptyFits(g, Size(rs[0]))
    ensures Splits(AppendImage(fr, g, rs[0]), rs[1..])
  {
    var c := Size(rs[0]);
    var rest := rs[1..];
    if g.headSeq == g.tailSeq || g.headPos > g.tailPos {
      var j :| 0 <= j <= |rs| && CutAt(g, rs, j);
      if j == 0 {
        assert rs[0..] == rs;
      } else {
        CutTail(rs, j - 1);
      }
      assert HasRoomFor(g, c) && EmptyFits(g, c);
      var g' := AppendImage(fr, g, rs[0]);
      if g'.headPos > g'.tailPos {
        assert CutAt(g', rest, if j == 0 then 0 else j - 1) by {
          assert rest[..0] == [] && rest[0..] == rest;
        }
      } else if j > 0 {
        TotalSplit(rest, j - 1);
      }
    }
  }

  lemma SplitsBack(fr: Framing, g: Image, rs: seq<Record>)
    requires Shape(g) && rs != []
    requires g.headSeq == g.tailSeq ==> g.headPos == g.tailPos
    requires HasRoomFor(g, Size(rs[0])) && EmptyFits(g, Size(rs[0]))
    requires Splits(AppendImage(fr, g, rs[0]), rs[1..])
    ensures Splits(g, rs)
  {
    var c := Size(rs[0]);
    var rest := rs[1..];
    var g' := AppendImage(fr, g, rs[0]);
    if g.headSeq == g.tailSeq || g.headPos > g.tailPos {
      if g'.headPos > g'.tailPos {
        var j :| 0 <= j <= |rest| && CutAt(g', rest, j);
        CutTail(rs, j);
        assert CutAt(g, rs, j + 1);
      } else if Wraps(g, c) {
        assert rs[0..] == rs && rs[..0] == [];
        assert CutAt(g, rs, 0);
      } else {
        CutTail(rs, 0);
        assert rest[..0] == [] && rest[0..] == rest;
        assert CutAt(g, rs, 1);
      }
    }
  }

  /** A batch lands exactly when it splits at the end of the area. */
  lemma {:induction false} LandsIffSplits(fr: Framing, g: Image, rs: seq<Record>)
    requires Shape(g)
    requires g.headSeq == g.tailSeq ==> g.headPos == g.tailPos
    ensures Lands(fr, g, rs) <==> Splits(g, rs)
    decreases |rs|
  {
    if rs == [] {
      assert CutAt(g, rs, 0);
    } else {
      if Splits(g, rs) {
        SplitsStep(fr, g, rs);
        LandsIffSplits(fr, AppendImage(fr, g, rs[0]), rs[1..]);
      }
      if Lands(fr, g, rs) {
        LandsIffSplits(fr, AppendImage(fr, g, rs[0]), rs[1..]);
        SplitsBack(fr, g, rs);
      }
    }
  }

  /** Room for a sum is room for its first part, and afterwards for what is left. */
  lemma RoomStep(fr: Framing, g: Image, total: nat, r: Record)
    requires Shape(g) && HasRoomFor(g, total) && EmptyFits(g, total) && Size(r) <= total
    requires g.headSeq == g.tailSeq ==> g.headPos == g.tailPos
    ensures HasRoomFor(g, Size(r)) && EmptyFits(g, Size(r))
    ensures var g' := AppendImage(fr, g, r); HasRoomFor(g', total - Size(r)) && g'.headSeq > g'.tailSeq
  {
  }

  /** The reservation suffices: room for the sum is room for every record of the batch, with a pad
      and a wrap inside it or not. Only on an empty ring does it need more than the space test. */
  lemma ReservationSuffices(fr: Framing, g: Image, rs: seq<Record>)
    requires Shape(g) && HasRoomFor(g, Total(rs)) && EmptyFits(g, Total(rs))
    requires g.headSeq == g.tailSeq ==> g.headPos == g.tailPos
    ensures Lands(fr, g, rs)
  {
    assert rs[..0] == [] && rs[0..] == rs && rs[..|rs|] == rs && rs[|rs|..] == [];
    if g.headSeq == g.tailSeq || g.headPos > g.tailPos {
      assert CutAt(g, rs, 0) || CutAt(g, rs, |rs|);
    }
    LandsIffSplits(fr, g, rs);
  }

  /** Consecutive sequence numbers from s, none of them a pad. */
  predicate Numbered(rs: seq<Record>, s: nat) {
    rs == [] || (rs[0].seqNo == s && rs[0].op != OP_PAD && Numbered(rs[1..], s + 1))
  }

  function AppendLanded(fr: Framing, g: Image, rs: seq<Record>): Image
    requires Shape(g) && Lands(fr, g, rs)
    decreases |rs|
  {
    if rs == [] then g else AppendLanded(fr, AppendImage(fr, g, rs[0]), rs[1..])
  }

  /** The record may be appended next, and soundly. */
  predicate Admits(g: Image, r: Record) {
    Shape(g) && HasRoomFor(g, Size(r)) && EmptyFits(g, Size(r)) && r.seqNo == g.headSeq && r.op != OP_PAD
  }

  /** Whatever every sound append extends by its record, a landed batch extends by its records. */
  lemma {:induction false} LandedExtends(fr: Framing, inv: (Image, seq<Record>) -> bool, g: Image,
                                         rs: seq<Record>, batch: seq<Record>)
    requires Shape(g) && inv(g, rs) && Lands(fr, g, batch) && Numbered(batch, g.headSeq)
    requires forall h: Image, hs, r: Record | inv(h, hs) && Admits(h, r) :: inv(AppendImage(fr, h, r), hs + [r])
    ensures inv(AppendLanded(fr, g, batch), rs + batch)
    decreases |batch|
  {
    if batch == [] {
      assert rs + batch == rs;
    } else {
      LandedExtends(fr, inv, AppendImage(fr, g, batch[0]), rs + [batch[0]], batch[1..]);
      assert rs + [batch[0]] + batch[1..] == rs + batch;
    }
  }

  /** What a landed batch leaves: the retained records, then the batch, each once and in order. */
  lemma LandedRetains(fr: Framing, g: Image, rs: seq<Record>, batch: seq<Record>)
    requires Shape(g) && Retains(fr, g, rs) && Lands(fr, g, batch) && Numbered(batch, g.headSeq)
    ensures Retains(fr, AppendLanded(fr, g, batch), rs + batch)
  {
    forall h: Image, hs, r: Record | Retains(fr, h, hs) && Admits(h, r)
      ensures Retains(fr, AppendImage(fr, h, r), hs + [r])
    {
      AppendSound(fr, h, hs, r);
    }
    LandedExtends(fr, (h, hs) => Retains(fr, h, hs), g, rs, batch);
  }
}
