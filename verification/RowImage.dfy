/** A table's rows as shared memory holds them (src/storage/table_store.cpp): version, record and
    tombstone of every slot, and the primary index. An operation is a series of single writes, so that
    a crash can fall between any two of them. */
module RowImage {

  datatype Cell = Null | Int(v: int)

  type Row = seq<Cell>

  datatype Kind = Insert | Update | Delete

  /** A staged operation, which is also what its log record says. */
  datatype Op = Op(kind: Kind, key: int, slot: nat, ver: nat, rec: Row)

  datatype Image = Image(ver: seq<nat>, rec: seq<Row>, tomb: seq<bool>, index: map<int, nat>)

  predicate Fits(im: Image, op: Op) {
    |im.ver| == |im.rec| == |im.tomb| && op.slot < |im.ver| && op.ver >= 1
  }

  function SetVer(im: Image, s: nat, v: nat): Image
    requires s < |im.ver|
  {
    im.(ver := im.ver[s := v])
  }

  function SetRec(im: Image, s: nat, r: Row): Image
    requires s < |im.rec|
  {
    im.(rec := im.rec[s := r])
  }

  function SetTomb(im: Image, s: nat, b: bool): Image
    requires s < |im.tomb|
  {
    im.(tomb := im.tomb[s := b])
  }

  /** How many writes the operation takes. The record copy counts twice: torn, then whole. */
  function Writes(kind: Kind): nat {
    match kind
    case Insert => 6
    case Update => 4
    case Delete => 4
  }

  /** The image after the first w writes of an operation; a torn record is any row. */
  function After(im: Image, op: Op, w: nat, torn: Row): (r: Image)
    requires Fits(im, op)
    ensures Fits(r, op) && |r.ver| == |im.ver|
    decreases w
  {
    var s := op.slot;
    if w == 0 then im
    else match op.kind
      case Insert => (
        var b := After(im, op, w - 1, torn);
        if w == 1 then SetVer(b, s, 1)
        else if w == 2 then SetRec(b, s, torn)
        else if w == 3 then SetRec(b, s, op.rec)
        else if w == 4 then SetTomb(b, s, false)
        else if w == 5 then SetVer(b, s, op.ver)
        else if w == 6 then b.(index := b.index[op.key := s])
        else b)
      case Update => (
        var b := After(im, op, w - 1, torn);
        if w == 1 then SetVer(b, s, op.ver - 1)
        else if w == 2 then SetRec(b, s, torn)
        else if w == 3 then SetRec(b, s, op.rec)
        else if w == 4 then SetVer(b, s, op.ver)
        else b)
      case Delete => (
        var b := After(im, op, w - 1, torn);
        if w == 1 then SetVer(b, s, op.ver - 1)
        else if w == 2 then SetTomb(b, s, true)
        else if w == 3 then SetVer(b, s, op.ver)
        else if w == 4 then b.(index := b.index - {op.key})
        else b)
  }

  /** The completed operation. */
  function Applied(im: Image, op: Op): (r: Image)
    requires Fits(im, op)
    ensures Fits(r, op) && |r.ver| == |im.ver|
  {
    var s := op.slot;
    match op.kind
    case Insert => Image(im.ver[s := op.ver], im.rec[s := op.rec], im.tomb[s := false], im.index[op.key := s])
    case Update => Image(im.ver[s := op.ver], im.rec[s := op.rec], im.tomb, im.index)
    case Delete => Image(im.ver[s := op.ver], im.rec, im.tomb[s := true], im.index - {op.key})
  }

  /** The images that an operation passes through when nothing interrupts it, its record being copied at once. */
  function Passes(im: Image, op: Op): seq<Image>
    requires Fits(im, op)
  {
    match op.kind
    case Insert => [After(im, op, 1, op.rec), After(im, op, 3, op.rec), After(im, op, 4, op.rec),
                    After(im, op, 5, op.rec), After(im, op, 6, op.rec)]
    case Update => [After(im, op, 1, op.rec), After(im, op, 3, op.rec), After(im, op, 4, op.rec)]
    case Delete => [After(im, op, 1, op.rec), After(im, op, 2, op.rec), After(im, op, 3, op.rec),
                    After(im, op, 4, op.rec)]
  }

  lemma AfterAll(im: Image, op: Op, torn: Row)
    requires Fits(im, op)
    ensures After(im, op, Writes(op.kind), torn) == Applied(im, op)
  {
    var s := op.slot;
    assert im.ver[s := 1][s := op.ver] == im.ver[s := op.ver];
    assert im.ver[s := op.ver - 1][s := op.ver] == im.ver[s := op.ver];
    assert im.rec[s := torn][s := op.rec] == im.rec[s := op.rec];
    var b3 := After(im, op, 3, torn);
    var b4 := After(im, op, 4, torn);
    if op.kind == Insert {
      assert b3 == Image(im.ver[s := 1], im.rec[s := torn][s := op.rec], im.tomb, im.index);
      assert After(im, op, 5, torn) == Image(im.ver[s := op.ver], im.rec[s := op.rec], im.tomb[s := false], im.index);
    }
  }
}
