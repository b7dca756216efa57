/** The record format of the write-ahead log: a 56-byte header, the payload and a CRC, packed
    without padding (src/storage/wal_ring.hpp:13-29). The CRC is any function of the bytes
    before it; nothing here depends on which. */
module WalFormat {
  import opened LittleEndian

  const HDR: nat := 56
  const CRC: nat := 4
  const MIN_RECORD: nat := 60

  const OP_INSERT: byte := 1
  const OP_UPDATE: byte := 2
  const OP_DELETE: byte := 3
  const OP_BEGIN: byte := 4
  const OP_COMMIT: byte := 5
  const OP_PAD: byte := 0xFF

  type Checksum = seq<byte> -> u32

  datatype Record = Record(seqNo: u64, ts: u64, rowNo: u64, rowVer: u64, tableId: u64,
                           op: byte, payload: seq<byte>)

  function RecordBytes(payloadLen: nat): nat {
    HDR + payloadLen + CRC
  }

  function Size(r: Record): (n: nat)
    ensures n >= MIN_RECORD
  {
    RecordBytes(|r.payload|)
  }

  function Header(r: Record): (s: seq<byte>)
    ensures |s| == HDR
  {
    Encode(Size(r), 4) + Encode(|r.payload|, 4) + Encode(r.seqNo, 8) + Encode(r.ts, 8) +
    Encode(r.rowNo, 8) + Encode(r.rowVer, 8) + Encode(r.tableId, 8) + [r.op] + Zeros(7)
  }

  function Body(r: Record): (s: seq<byte>)
    ensures |s| == Size(r) - CRC
  {
    Header(r) + r.payload
  }

  function Frame(crc: Checksum, r: Record): (s: seq<byte>)
    ensures |s| == Size(r)
  {
    Body(r) + Encode(crc(Body(r)), 4)
  }

  /** The pad record that fills the area from a position to its end. */
  function PadRecord(room: nat): (r: Record)
    requires room >= MIN_RECORD
    ensures Size(r) == room
  {
    Record(0, 0, 0, 0, 0, OP_PAD, Zeros(room - MIN_RECORD))
  }

  // ---- reading fields back from an area ----

  function U32At(a: seq<byte>, p: nat): nat
    requires p + 4 <= |a|
  {
    Decode(a[p..p + 4])
  }

  function U64At(a: seq<byte>, p: nat): (v: u64)
    requires p + 8 <= |a|
  {
    WidthValues();
    EncodeDecode(a[p..p + 8]);
    Decode(a[p..p + 8])
  }

  function RecordAt(a: seq<byte>, p: nat, payloadLen: nat): Record
    requires p + HDR + payloadLen <= |a|
  {
    Record(U64At(a, p + 8), U64At(a, p + 16), U64At(a, p + 24), U64At(a, p + 32),
           U64At(a, p + 40), a[p + 48], a[p + HDR..p + HDR + payloadLen])
  }

  predicate CrcOk(crc: Checksum, a: seq<byte>, p: nat, total: nat)
    requires total >= CRC && p + total <= |a|
  {
    U32At(a, p + total - CRC) == crc(a[p..p + total - CRC])
  }

  /** Any way of turning records into bytes that has the right lengths: what the ring's space
      accounting depends on. */
  type Framing = f: Record -> seq<byte> | forall r :: |f(r)| == Size(r)
    ghost witness r => Zeros(Size(r))

  ghost function FramingOf(crc: Checksum): Framing {
    r => Frame(crc, r)
  }

  predicate FrameAt(fr: Framing, a: seq<byte>, p: nat, r: Record) {
    p + Size(r) <= |a| && a[p..p + Size(r)] == fr(r)
  }

  lemma SubSlice(a: seq<byte>, p: nat, n: nat, s: nat, e: nat)
    requires s <= e <= n && p + n <= |a|
    ensures a[p..p + n][s..e] == a[p + s..p + e]
  {
    var x, y := a[p..p + n][s..e], a[p + s..p + e];
    assert |x| == |y| && forall i :: 0 <= i < |x| ==> x[i] == y[i];
  }

  lemma FieldAt(a: seq<byte>, p: nat, f: seq<byte>, s: nat, w: nat, v: nat)
    requires s + w <= |f| && p + |f| <= |a| && a[p..p + |f|] == f
    requires f[s..s + w] == Encode(v, w) && v < Pow256(w)
    ensures Decode(a[p + s..p + s + w]) == v
  {
    SubSlice(a, p, |f|, s, s + w);
    DecodeEncode(v, w);
  }

  lemma FrameSlices(crc: Checksum, r: Record)
    ensures var f := Frame(crc, r); var n := Size(r);
      && f[0..4] == Encode(n, 4) && f[4..8] == Encode(|r.payload|, 4)
      && f[8..16] == Encode(r.seqNo, 8) && f[16..24] == Encode(r.ts, 8)
      && f[24..32] == Encode(r.rowNo, 8) && f[32..40] == Encode(r.rowVer, 8)
      && f[40..48] == Encode(r.tableId, 8) && f[48] == r.op
      && f[HDR..n - CRC] == r.payload && f[0..n - CRC] == Body(r)
      && f[n - CRC..n] == Encode(crc(Body(r)), 4)
  {
  }

  lemma FrameWords(crc: Checksum, a: seq<byte>, p: nat, r: Record)
    requires p + Size(r) <= |a| && a[p..p + Size(r)] == Frame(crc, r) && Size(r) < TWO32
    ensures U64At(a, p + 8) == r.seqNo && U64At(a, p + 16) == r.ts && U64At(a, p + 24) == r.rowNo
    ensures U64At(a, p + 32) == r.rowVer && U64At(a, p + 40) == r.tableId
  {
    var f := Frame(crc, r);
    FrameSlices(crc, r);
    WidthValues();
    FieldAt(a, p, f, 8, 8, r.seqNo);
    FieldAt(a, p, f, 16, 8, r.ts);
    FieldAt(a, p, f, 24, 8, r.rowNo);
    FieldAt(a, p, f, 32, 8, r.rowVer);
    FieldAt(a, p, f, 40, 8, r.tableId);
  }

  lemma FrameLengths(crc: Checksum, a: seq<byte>, p: nat, r: Record)
    requires p + Size(r) <= |a| && a[p..p + Size(r)] == Frame(crc, r) && Size(r) < TWO32
    ensures U32At(a, p) == Size(r) && U32At(a, p + 4) == |r.payload|
  {
    var f := Frame(crc, r);
    FrameSlices(crc, r);
    WidthValues();
    FieldAt(a, p, f, 0, 4, Size(r));
    FieldAt(a, p, f, 4, 4, |r.payload|);
  }

  lemma FrameCrc(crc: Checksum, a: seq<byte>, p: nat, r: Record)
    requires p + Size(r) <= |a| && a[p..p + Size(r)] == Frame(crc, r)
    ensures CrcOk(crc, a, p, Size(r))
  {
    hide Encode, Decode, Header, Pow256, Frame, Body;
    var n := Size(r);
    var f := Frame(crc, r);
    var c := crc(Body(r));
    FrameSlices(crc, r);
    WidthValues();
    FieldAt(a, p, f, n - CRC, 4, c);
    SubSlice(a, p, n, 0, n - CRC);
    assert p + (n - CRC) == p + n - CRC;
  }

  /** Every field of a framed record is read back, and its checksum holds. */
  lemma FrameFields(crc: Checksum, a: seq<byte>, p: nat, r: Record)
    requires p + Size(r) <= |a| && a[p..p + Size(r)] == Frame(crc, r) && Size(r) < TWO32
    ensures U32At(a, p) == Size(r) && U32At(a, p + 4) == |r.payload|
    ensures RecordAt(a, p, |r.payload|) == r
    ensures CrcOk(crc, a, p, Size(r))
  {
    FrameWords(crc, a, p, r);
    FrameLengths(crc, a, p, r);
    FrameCrc(crc, a, p, r);
    assert a[p + 48] == r.op && a[p + HDR..p + HDR + |r.payload|] == r.payload by {
      var n := Size(r);
      FrameSlices(crc, r);
      SubSlice(a, p, n, HDR, n - CRC);
      assert a[p + 48] == a[p..p + n][48];
    }
  }
}
