/** Writing and reading rows, column blocks and result headers through the cursors (src/net/value_codec.cpp),
    each proved against its layout. */
module WireBlocks {
  import opened Errors
  import opened LittleEndian
  import opened OrderedKey
  import opened Wire
  import opened WireCodec
  import opened WireFormat

  // ---- the reader's room checks refuse nothing that could be read ----

  /** Elements of at least w bytes each need that much room. */
  lemma {:induction false} ListNeedsRoom<T(!new)>(n: nat, take: bytes -> Option<Taken<T>>, w: nat, b: bytes)
    requires forall c: bytes :: take(c).Some? ==> |c| >= w + |take(c).value.rest|
    requires TakeAll(n, take, b).Some?
    ensures |b| >= n * w
  {
    if n > 0 {
      ListNeedsRoom(n - 1, take, w, take(b).value.rest);
      assert n * w == (n - 1) * w + w;
    }
  }

  lemma DataNeedsRoom(code: nat, rows: nat, b: bytes)
    requires TakeData(code, rows, b).Some?
    ensures |b| >= rows * (if code == BLK_I64 || code == BLK_F64 then 8 else 4)
  {
    hide TakeI64, TakeF64, TakeString;
    if code == BLK_I64 {
      ListNeedsRoom(rows, TakeI64, 8, b);
    } else if code == BLK_F64 {
      ListNeedsRoom(rows, TakeF64, 8, b);
    } else {
      ListNeedsRoom(rows, TakeVar, 4, b);
    }
  }

  // ---- rows ----

  method WriteValue(w: Writer, v: Value, ghost tail: bytes)
    modifies w
    ensures w.buf + tail == old(w.buf) + PutValue(v, tail)
  {
    hide Encode;
    match v
    case VNull => w.U8(VAL_NULL);
    case VInt(i) =>
      w.U8(VAL_I64);
      w.I64(i, tail);
    case VReal(bits) =>
      w.U8(VAL_F64);
      w.F64(bits, tail);
    case VBytes(s) =>
      w.U8(VAL_VAR);
      w.Var(s, tail);
  }

  method WriteRow(w: Writer, row: seq<Value>, ghost tail: bytes)
    modifies w
    ensures w.buf + tail == old(w.buf) + PutRow(row, tail)
  {
    hide PutValue;
    assert row[0..] == row;
    for i := 0 to |row|
      invariant w.buf + PutRow(row[i..], tail) == old(w.buf) + PutRow(row, tail)
    {
      assert row[i..][0] == row[i] && row[i..][1..] == row[i + 1..];
      WriteValue(w, row[i], PutRow(row[i + 1..], tail));
    }
    assert row[|row|..] == [];
  }

  /** A tag that does not fit the column's type poisons the reader. */
  method ReadValueTyped(r: Reader, kind: nat) returns (v: Value)
    requires r.Valid()
    modifies r
    ensures r.Valid()
    ensures if old(r.ok) && TakeValue(kind, old(r.Rest())).Some?
            then r.ok && TakeValue(kind, old(r.Rest())) == Some(Taken(v, r.Rest()))
            else !r.ok
  {
    hide TakeUint, TakeI64, TakeF64, TakeString;
    var tag := r.U8();
    if !r.ok || tag == VAL_NULL { return VNull; }
    if ValidKind(kind) && !IsFloat(kind) && !IsVar(kind) {
      if tag != VAL_I64 { r.Poison(); return VNull; }
      var i := r.I64();
      return VInt(i);
    }
    if IsFloat(kind) {
      if tag != VAL_F64 { r.Poison(); return VNull; }
      var f := r.F64();
      return VReal(f);
    }
    if IsVar(kind) {
      if tag != VAL_VAR { r.Poison(); return VNull; }
      var s := r.Bytes(4);
      return if s == None then VNull else VBytes(s.value);
    }
    r.Poison();
    return VNull;
  }

  lemma RowStep(acc: seq<Value>, kinds: seq<nat>, i: nat, b: bytes)
    requires i < |kinds|
    ensures var v := TakeValue(kinds[i], b);
            Joined(acc, TakeRow(kinds[i..], b))
            == if v == None then None else Joined(acc + [v.value.value], TakeRow(kinds[i + 1..], v.value.rest))
  {
    hide TakeValue;
    assert kinds[i..][0] == kinds[i] && kinds[i..][1..] == kinds[i + 1..];
    var v := TakeValue(kinds[i], b);
    if v.Some? {
      var vs := TakeRow(kinds[i + 1..], v.value.rest);
      if vs.Some? {
        assert acc + ([v.value.value] + vs.value.value) == acc + [v.value.value] + vs.value.value;
      }
    }
  }

  /** The values of one row; the caller looks at `ok` afterwards. */
  method ReadRow(r: Reader, kinds: seq<nat>) returns (row: seq<Value>)
    requires r.Valid() && r.ok
    modifies r
    ensures r.Valid()
    ensures if TakeRow(kinds, old(r.Rest())).Some?
            then r.ok && TakeRow(kinds, old(r.Rest())) == Some(Taken(row, r.Rest()))
            else !r.ok
  {
    hide TakeValue;
    row := [];
    assert kinds[0..] == kinds;
    JoinStart(TakeRow(kinds, r.Rest()));
    for i := 0 to |kinds|
      invariant r.Valid() && r.ok
      invariant Joined(row, TakeRow(kinds[i..], r.Rest())) == TakeRow(kinds, old(r.Rest()))
    {
      RowStep(row, kinds, i, r.Rest());
      var v := ReadValueTyped(r, kinds[i]);
      row := row + [v];
      if !r.ok { return; }
    }
    assert row + [] == row;
  }

  // ---- column blocks ----

  method WriteData(w: Writer, d: BlockData, ghost tail: bytes)
    modifies w
    ensures w.buf + tail == old(w.buf) + PutData(d, tail)
  {
    hide PutI64, PutF64, PutString;
    match d
    case I64s(xs) =>
      assert xs[0..] == xs;
      for i := 0 to |xs|
        invariant w.buf + PutAll(xs[i..], PutI64, tail) == old(w.buf) + PutAll(xs, PutI64, tail)
      {
        assert xs[i..][0] == xs[i] && xs[i..][1..] == xs[i + 1..];
        w.I64(xs[i], PutAll(xs[i + 1..], PutI64, tail));
      }
      assert xs[|xs|..] == [];
    case F64s(xs) =>
      assert xs[0..] == xs;
      for i := 0 to |xs|
        invariant w.buf + PutAll(xs[i..], PutF64, tail) == old(w.buf) + PutAll(xs, PutF64, tail)
      {
        assert xs[i..][0] == xs[i] && xs[i..][1..] == xs[i + 1..];
        w.F64(xs[i], PutAll(xs[i + 1..], PutF64, tail));
      }
      assert xs[|xs|..] == [];
    case Vars(xs) =>
      assert xs[0..] == xs;
      for i := 0 to |xs|
        invariant w.buf + PutAll(xs[i..], PutVar, tail) == old(w.buf) + PutAll(xs, PutVar, tail)
      {
        assert xs[i..][0] == xs[i] && xs[i..][1..] == xs[i + 1..];
        w.Var(xs[i], PutAll(xs[i + 1..], PutVar, tail));
      }
      assert xs[|xs|..] == [];
  }

  method WriteBlockColumn(w: Writer, c: BlockColumn, ghost tail: bytes)
    modifies w
    ensures w.buf + tail == old(w.buf) + PutBlockColumn(c, tail)
  {
    hide Encode, PutName, PutData;
    ghost var r1 := PutData(c.data, tail);
    ghost var r2 := PutNulls(c.nulls, r1);
    w.Str(c.name, PutUint(DataCode(c.data), 1, PutUint(Flag(c.nulls.Some?), 1, r2)));
    w.U8(DataCode(c.data));
    w.U8(Flag(c.nulls.Some?));
    assert w.buf + r2 == old(w.buf) + PutBlockColumn(c, tail);
    if c.nulls.Some? { w.Raw(c.nulls.value); }
    WriteData(w, c.data, tail);
  }

  method WriteBlock(w: Writer, k: Block, ghost tail: bytes)
    requires k.rows < TWO32 && |k.columns| < TWO32
    modifies w
    ensures w.buf + tail == old(w.buf) + PutBlock(k, tail)
  {
    hide Encode, PutName, PutBlockColumn;
    ghost var r1 := PutAll(k.columns, PutBlockColumn, tail);
    ghost var r2 := PutUint(|k.columns|, 4, r1);
    w.Str(k.table, PutUint(k.rows, 4, r2));
    w.U32(k.rows);
    w.U32(|k.columns|);
    assert w.buf + r1 == old(w.buf) + PutBlock(k, tail);
    ghost var head := w.buf;
    var cs := k.columns;
    assert cs[0..] == cs;
    for i := 0 to |cs|
      invariant w.buf + PutAll(cs[i..], PutBlockColumn, tail) == head + r1
    {
      assert cs[i..][0] == cs[i] && cs[i..][1..] == cs[i + 1..];
      WriteBlockColumn(w, cs[i], PutAll(cs[i + 1..], PutBlockColumn, tail));
    }
    assert cs[|cs|..] == [];
  }

  /** The values of one column, after the room check that bounds the allocation. */
  method ReadData(r: Reader, code: nat, rows: nat) returns (d: Result<BlockData>)
    requires r.Valid() && r.ok
    modifies r
    ensures r.Took(TakeData(code, rows, old(r.Rest())), d)
  {
    hide TakeI64, TakeF64, TakeString;
    ghost var b := r.Rest();
    if TakeData(code, rows, b).Some? { DataNeedsRoom(code, rows, b); }
    if code == BLK_I64 {
      if r.Remaining() < rows * 8 { return Failure(ProtocolError); }
      var xs: seq<i64> := [];
      JoinStart(TakeAll(rows, TakeI64, b));
      for k := 0 to rows
        invariant r.Valid()
        invariant r.ok ==> Joined(xs, TakeAll(rows - k, TakeI64, r.Rest())) == TakeAll(rows, TakeI64, b)
        invariant !r.ok ==> TakeAll(rows, TakeI64, b) == None
      {
        JoinStep(xs, rows - k, TakeI64, r.Rest());
        var v := r.I64();
        xs := xs + [v];
      }
      JoinEnd(xs, TakeI64, r.Rest());
      return if r.ok then Success(I64s(xs)) else Failure(ProtocolError);
    }
    if code == BLK_F64 {
      if r.Remaining() < rows * 8 { return Failure(ProtocolError); }
      var xs: seq<u64> := [];
      JoinStart(TakeAll(rows, TakeF64, b));
      for k := 0 to rows
        invariant r.Valid()
        invariant r.ok ==> Joined(xs, TakeAll(rows - k, TakeF64, r.Rest())) == TakeAll(rows, TakeF64, b)
        invariant !r.ok ==> TakeAll(rows, TakeF64, b) == None
      {
        JoinStep(xs, rows - k, TakeF64, r.Rest());
        var v := r.F64();
        xs := xs + [v];
      }
      JoinEnd(xs, TakeF64, r.Rest());
      return if r.ok then Success(F64s(xs)) else Failure(ProtocolError);
    }
    if r.Remaining() < rows * 4 { return Failure(ProtocolError); }
    var xs: seq<bytes> := [];
    JoinStart(TakeAll(rows, TakeVar, b));
    for k := 0 to rows
      invariant r.Valid() && r.ok
      invariant Joined(xs, TakeAll(rows - k, TakeVar, r.Rest())) == TakeAll(rows, TakeVar, b)
    {
      JoinStep(xs, rows - k, TakeVar, r.Rest());
      var s := r.Bytes(4);
      if s == None { return Failure(ProtocolError); }
      xs := xs + [s.value];
    }
    JoinEnd(xs, TakeVar, r.Rest());
    return Success(Vars(xs));
  }

  method ReadNulls(r: Reader, has: bool, rows: nat) returns (nulls: Result<Option<bytes>>)
    requires r.Valid() && r.ok
    modifies r
    ensures r.Took(TakeNulls(has, rows, old(r.Rest())), nulls)
  {
    if !has { return Success(None); }
    if r.Remaining() < rows { return Failure(ProtocolError); }
    var flags := r.Raw(rows);
    return Success(flags);
  }

  method ReadBlockColumn(r: Reader, rows: nat) returns (c: Result<BlockColumn>)
    requires r.Valid() && r.ok
    modifies r
    ensures r.Took(TakeBlockColumn(rows, old(r.Rest())), c)
  {
    hide TakeUint, TakeName, TakeData, TakeNulls;
    var name := r.Name();
    if name.Failure? { return Failure(ProtocolError); }
    var code := r.U8();
    var has := r.U8();
    if !r.ok || code > BLK_VAR || has > 1 { return Failure(ProtocolError); }
    var nulls := ReadNulls(r, has != 0, rows);
    if nulls.Failure? { return Failure(ProtocolError); }
    var data := ReadData(r, code, rows);
    if data.Failure? { return Failure(ProtocolError); }
    return Success(BlockColumn(name.value, nulls.value, data.value));
  }

  method ReadBlock(r: Reader) returns (k: Result<Block>)
    requires r.Valid() && r.ok
    modifies r
    ensures r.Took(TakeBlock(old(r.Rest())), k)
  {
    hide TakeUint, TakeName, TakeBlockColumn;
    var table := r.Name();
    if table.Failure? { return Failure(ProtocolError); }
    var rows := r.U32();
    var n := r.U32();
    if !r.ok || rows == 0 || rows > MAX_BLOCK_ROWS || n == 0 || n > MAX_BLOCK_COLS {
      return Failure(ProtocolError);
    }
    ghost var b := r.Rest();
    ghost var take := BlockColumnTaker(rows);
    var acc: seq<BlockColumn> := [];
    JoinStart(TakeAll(n, take, b));
    for i := 0 to n
      invariant r.Valid() && r.ok
      invariant Joined(acc, TakeAll(n - i, take, r.Rest())) == TakeAll(n, take, b)
    {
      JoinStep(acc, n - i, take, r.Rest());
      var c := ReadBlockColumn(r, rows);
      if c.Failure? { return Failure(ProtocolError); }
      acc := acc + [c.value];
    }
    JoinEnd(acc, take, r.Rest());
    return Success(Block(table.value, rows, acc));
  }

  /** Writing a block within the limits and reading the bytes gives it back, and has read everything exactly if nothing
      follows it. */
  method BlockRoundTrip(k: Block, extra: bytes) returns (back: Result<Block>, finished: bool)
    requires BlockOk(k)
    ensures back == Success(k) && (finished <==> extra == [])
  {
    hide PutBlock, TakeBlock;
    var w := new Writer();
    WriteBlock(w, k, extra);
    w.Raw(extra);
    var r := new Reader(w.buf);
    BlockReads(k, extra);
    back := ReadBlock(r);
    finished := r.Finish();
  }

  // ---- result headers ----

  method WriteHeaderColumns(w: Writer, cs: seq<HeaderColumn>, ghost tail: bytes)
    requires forall i :: 0 <= i < |cs| ==> cs[i].kind < 256
    modifies w
    ensures w.buf + tail == old(w.buf) + PutAll(cs, PutHeaderColumn, tail)
  {
    hide Encode, PutName;
    assert cs[0..] == cs;
    for i := 0 to |cs|
      invariant w.buf + PutAll(cs[i..], PutHeaderColumn, tail) == old(w.buf) + PutAll(cs, PutHeaderColumn, tail)
    {
      assert cs[i..][0] == cs[i] && cs[i..][1..] == cs[i + 1..];
      ghost var after := PutAll(cs[i + 1..], PutHeaderColumn, tail);
      w.Str(cs[i].name, PutUint(cs[i].kind, 1, after));
      w.U8(cs[i].kind);
    }
    assert cs[|cs|..] == [];
  }

  method WriteResultHeader(w: Writer, h: Header, ghost tail: bytes)
    requires |h.columns| < TWO32 && forall i :: 0 <= i < |h.columns| ==> h.columns[i].kind < 256
    modifies w
    ensures w.buf + tail == old(w.buf) + PutHeader(h, tail)
  {
    hide Encode, PutName, PutHeaderColumn, PutAll;
    ghost var r0 := PutUint(h.rows, 4, tail);
    ghost var r1 := PutAll(h.columns, PutHeaderColumn, r0);
    w.Str(h.table, PutUint(|h.columns|, 4, r1));
    w.U32(|h.columns|);
    assert w.buf + r1 == old(w.buf) + PutHeader(h, tail);
    WriteHeaderColumns(w, h.columns, r0);
    w.U32(h.rows);
  }

  method ReadResultHeader(r: Reader) returns (h: Result<Header>)
    requires r.Valid() && r.ok
    modifies r
    ensures r.Took(TakeHeader(old(r.Rest())), h)
  {
    hide TakeUint, TakeName;
    var table := r.Name();
    if table.Failure? { return Failure(ProtocolError); }
    var n := r.U32();
    if !r.ok || n == 0 || n > MAX_COLS { return Failure(ProtocolError); }
    ghost var b := r.Rest();
    var acc: seq<HeaderColumn> := [];
    JoinStart(TakeAll(n, TakeHeaderColumn, b));
    for i := 0 to n
      invariant r.Valid() && r.ok
      invariant Joined(acc, TakeAll(n - i, TakeHeaderColumn, r.Rest())) == TakeAll(n, TakeHeaderColumn, b)
    {
      JoinStep(acc, n - i, TakeHeaderColumn, r.Rest());
      var name := r.Name();
      if name.Failure? { return Failure(ProtocolError); }
      var kind := r.U8();
      if !r.ok || !ValidKind(kind) { return Failure(ProtocolError); }
      acc := acc + [HeaderColumn(name.value, kind)];
    }
    JoinEnd(acc, TakeHeaderColumn, r.Rest());
    var rows := r.U32();
    if !r.ok { return Failure(ProtocolError); }
    return Success(Header(table.value, acc, rows));
  }
}
