/** Writing and reading table definitions, rows, column blocks and result headers through the cursors
    (src/net/value_codec.cpp), each proved against its layout. */
module WireCodec {
  import opened Errors
  import opened LittleEndian
  import opened OrderedKey
  import opened Wire
  import opened WireFormat

  // ---- taking lists step by step ----

  /** What has been taken, in front of what is still to be taken. */
  function Joined<T>(acc: seq<T>, t: Option<Taken<seq<T>>>): Option<Taken<seq<T>>> {
    match t case None => None case Some(k) => Some(Taken(acc + k.value, k.rest))
  }

  lemma JoinStep<T>(acc: seq<T>, n: nat, take: bytes -> Option<Taken<T>>, b: bytes)
    requires n > 0
    ensures take(b) == None ==> Joined(acc, TakeAll(n, take, b)) == None
    ensures take(b).Some? ==>
      Joined(acc, TakeAll(n, take, b))
      == Joined(acc + [take(b).value.value], TakeAll(n - 1, take, take(b).value.rest))
  {
    if take(b).Some? {
      var xs := TakeAll(n - 1, take, take(b).value.rest);
      if xs.Some? {
        assert acc + ([take(b).value.value] + xs.value.value) == acc + [take(b).value.value] + xs.value.value;
      }
    }
  }

  lemma JoinStart<T>(t: Option<Taken<seq<T>>>)
    ensures Joined([], t) == t
  {
    if t.Some? { assert [] + t.value.value == t.value.value; }
  }

  lemma JoinEnd<T>(acc: seq<T>, take: bytes -> Option<Taken<T>>, b: bytes)
    ensures Joined(acc, TakeAll(0, take, b)) == Some(Taken(acc, b))
  {
    assert acc + [] == acc;
  }

  method ReadNames(r: Reader, n: nat) returns (names: Result<seq<bytes>>)
    requires r.Valid() && r.ok
    modifies r
    ensures r.Took(TakeNames(n, old(r.Rest())), names)
  {
    hide TakeName;
    var acc: seq<bytes> := [];
    JoinStart(TakeNames(n, r.Rest()));
    for i := 0 to n
      invariant r.Valid() && r.ok
      invariant Joined(acc, TakeNames(n - i, r.Rest())) == TakeNames(n, old(r.Rest()))
    {
      JoinStep(acc, n - i, TakeName, r.Rest());
      var s := r.Name();
      if s.Failure? { return Failure(ProtocolError); }
      acc := acc + [s.value];
    }
    JoinEnd(acc, TakeName, r.Rest());
    return Success(acc);
  }

  // ---- table definitions ----

  method ReadDefault(r: Reader, hasDefault: bool) returns (d: Result<DefaultValue>)
    requires r.Valid() && r.ok
    modifies r
    ensures r.Took(TakeDefault(hasDefault, old(r.Rest())), d)
  {
    hide TakeUint, TakeF64, TakeI64;
    if !hasDefault { return Success(NO_DEFAULT); }
    var isNull := r.U8();
    if !r.ok { return Failure(ProtocolError); }
    if isNull != 0 { return Success(NO_DEFAULT); }
    var kind := r.U8();
    if !r.ok || kind > 1 { return Failure(ProtocolError); }
    if kind == 1 {
      var v := r.F64();
      if !r.ok { return Failure(ProtocolError); }
      return Success(DefaultValue(false, 0, v));
    }
    var v := r.I64();
    if !r.ok { return Failure(ProtocolError); }
    return Success(DefaultValue(false, v, 0));
  }

  method ReadColumn(r: Reader) returns (c: Result<ColumnDef>)
    requires r.Valid() && r.ok
    modifies r
    ensures r.Took(TakeColumn(old(r.Rest())), c)
  {
    hide TakeUint, TakeName, TakeDefault;
    var name := r.Name();
    if name.Failure? { return Failure(ProtocolError); }
    var kind := r.U8();
    if !r.ok || !ValidKind(kind) { return Failure(ProtocolError); }
    var len := r.U32();
    var nullable := r.U8();
    var hasDefault := r.U8();
    if !r.ok { return Failure(ProtocolError); }
    var value := ReadDefault(r, hasDefault != 0);
    if value.Failure? { return Failure(ProtocolError); }
    return Success(ColumnDef(name.value, kind, len, nullable != 0, hasDefault != 0, value.value));
  }

  method ReadColumns(r: Reader, n: nat) returns (cs: Result<seq<ColumnDef>>)
    requires r.Valid() && r.ok
    modifies r
    ensures r.Took(TakeColumns(n, old(r.Rest())), cs)
  {
    hide TakeColumn;
    var acc: seq<ColumnDef> := [];
    JoinStart(TakeColumns(n, r.Rest()));
    for i := 0 to n
      invariant r.Valid() && r.ok
      invariant Joined(acc, TakeColumns(n - i, r.Rest())) == TakeColumns(n, old(r.Rest()))
    {
      JoinStep(acc, n - i, TakeColumn, r.Rest());
      var c := ReadColumn(r);
      if c.Failure? { return Failure(ProtocolError); }
      acc := acc + [c.value];
    }
    JoinEnd(acc, TakeColumn, r.Rest());
    return Success(acc);
  }

  method ReadIndex(r: Reader) returns (x: Result<IndexDef>)
    requires r.Valid() && r.ok
    modifies r
    ensures r.Took(TakeIndex(old(r.Rest())), x)
  {
    hide TakeUint, TakeName, TakeNames;
    var name := r.Name();
    if name.Failure? { return Failure(ProtocolError); }
    var unique := r.U8();
    var n := r.U32();
    if !r.ok || n == 0 || n > MAX_INDEX_COLS { return Failure(ProtocolError); }
    var columns := ReadNames(r, n);
    if columns.Failure? { return Failure(ProtocolError); }
    return Success(IndexDef(name.value, unique != 0, columns.value));
  }

  method ReadIndexes(r: Reader, n: nat) returns (xs: Result<seq<IndexDef>>)
    requires r.Valid() && r.ok
    modifies r
    ensures r.Took(TakeIndexes(n, old(r.Rest())), xs)
  {
    hide TakeIndex;
    var acc: seq<IndexDef> := [];
    JoinStart(TakeIndexes(n, r.Rest()));
    for i := 0 to n
      invariant r.Valid() && r.ok
      invariant Joined(acc, TakeIndexes(n - i, r.Rest())) == TakeIndexes(n, old(r.Rest()))
    {
      JoinStep(acc, n - i, TakeIndex, r.Rest());
      var x := ReadIndex(r);
      if x.Failure? { return Failure(ProtocolError); }
      acc := acc + [x.value];
    }
    JoinEnd(acc, TakeIndex, r.Rest());
    return Success(acc);
  }

  method ReadTableDef(r: Reader) returns (d: Result<TableDef>)
    requires r.Valid() && r.ok
    modifies r
    ensures r.Took(TakeTableDef(old(r.Rest())), d)
  {
    hide TakeUint, TakeName, TakeNames, TakeColumns, TakeIndexes;
    var name := r.Name();
    if name.Failure? { return Failure(ProtocolError); }
    var nCols := r.U32();
    if !r.ok || nCols == 0 || nCols > MAX_COLS { return Failure(ProtocolError); }
    var columns := ReadColumns(r, nCols);
    if columns.Failure? { return Failure(ProtocolError); }
    var nPk := r.U32();
    if !r.ok || nPk > MAX_PK { return Failure(ProtocolError); }
    var pk := ReadNames(r, nPk);
    if pk.Failure? { return Failure(ProtocolError); }
    var nSec := r.U32();
    if !r.ok || nSec > MAX_SEC { return Failure(ProtocolError); }
    var sec := ReadIndexes(r, nSec);
    if sec.Failure? { return Failure(ProtocolError); }
    var hint := r.U64();
    var rowCap := r.U32();
    if !r.ok { return Failure(ProtocolError); }
    return Success(TableDef(name.value, columns.value, pk.value, sec.value, hint, rowCap));
  }

  method WriteDefault(w: Writer, c: ColumnDef, ghost tail: bytes)
    modifies w
    ensures w.buf + tail == old(w.buf) + PutDefault(c, tail)
  {
    hide Encode, PutF64, PutI64;
    if !c.hasDefault { return; }
    w.U8(if c.value.isNull then 1 else 0);
    if c.value.isNull { return; }
    var isReal := IsFloat(c.kind);
    w.U8(if isReal then 1 else 0);
    if isReal {
      w.F64(c.value.bits, tail);
    } else {
      w.I64(c.value.i, tail);
    }
  }

  method WriteColumn(w: Writer, c: ColumnDef, ghost tail: bytes)
    requires c.kind < 256
    modifies w
    ensures w.buf + tail == old(w.buf) + PutColumn(c, tail)
  {
    hide Encode, PutName, PutDefault;
    ghost var r1 := PutDefault(c, tail);
    ghost var r2 := PutUint(Flag(c.hasDefault), 1, r1);
    ghost var r3 := PutUint(Flag(c.nullable), 1, r2);
    ghost var r4 := PutUint(c.len, 4, r3);
    w.Str(c.name, PutUint(c.kind, 1, r4));
    w.U8(c.kind);
    w.U32(c.len);
    w.U8(Flag(c.nullable));
    w.U8(Flag(c.hasDefault));
    assert w.buf + r1 == old(w.buf) + PutColumn(c, tail);
    WriteDefault(w, c, tail);
  }

  method WriteNames(w: Writer, names: seq<bytes>, ghost tail: bytes)
    modifies w
    ensures w.buf + tail == old(w.buf) + PutNames(names, tail)
  {
    hide PutName;
    assert names[0..] == names;
    for i := 0 to |names|
      invariant w.buf + PutNames(names[i..], tail) == old(w.buf) + PutNames(names, tail)
    {
      assert names[i..][0] == names[i] && names[i..][1..] == names[i + 1..];
      w.Str(names[i], PutNames(names[i + 1..], tail));
    }
    assert names[|names|..] == [];
  }

  method WriteTableDef(w: Writer, d: TableDef, ghost tail: bytes)
    requires |d.columns| < TWO32 && |d.primaryKey| < TWO32 && |d.secondary| < TWO32
    requires forall i :: 0 <= i < |d.columns| ==> d.columns[i].kind < 256
    requires forall i :: 0 <= i < |d.secondary| ==> |d.secondary[i].columns| < TWO32
    modifies w
    ensures w.buf + tail == old(w.buf) + PutTableDef(d, tail)
  {
    hide Encode, PutName, PutNames, PutColumn, PutIndex, PutColumns, PutIndexes;
    ghost var r1 := PutUint(d.rowCap, 4, tail);
    ghost var r2 := PutUint(d.maxRowsHint, 8, r1);
    ghost var r3 := PutIndexes(d.secondary, r2);
    ghost var r4 := PutUint(|d.secondary|, 4, r3);
    ghost var r5 := PutNames(d.primaryKey, r4);
    ghost var r6 := PutUint(|d.primaryKey|, 4, r5);
    ghost var r7 := PutColumns(d.columns, r6);
    w.Str(d.name, PutUint(|d.columns|, 4, r7));
    w.U32(|d.columns|);
    assert w.buf + r7 == old(w.buf) + PutTableDef(d, tail);
    WriteColumns(w, d.columns, r6);
    w.U32(|d.primaryKey|);
    assert w.buf + r5 == old(w.buf) + PutTableDef(d, tail);
    WriteNames(w, d.primaryKey, r4);
    w.U32(|d.secondary|);
    assert w.buf + r3 == old(w.buf) + PutTableDef(d, tail);
    WriteIndexes(w, d.secondary, r2);
    w.U64(d.maxRowsHint);
    assert w.buf + r1 == old(w.buf) + PutTableDef(d, tail);
    w.U32(d.rowCap);
  }

  method WriteColumns(w: Writer, cs: seq<ColumnDef>, ghost tail: bytes)
    requires forall i :: 0 <= i < |cs| ==> cs[i].kind < 256
    modifies w
    ensures w.buf + tail == old(w.buf) + PutColumns(cs, tail)
  {
    hide PutColumn;
    assert cs[0..] == cs;
    for i := 0 to |cs|
      invariant w.buf + PutColumns(cs[i..], tail) == old(w.buf) + PutColumns(cs, tail)
    {
      assert cs[i..][0] == cs[i] && cs[i..][1..] == cs[i + 1..];
      WriteColumn(w, cs[i], PutColumns(cs[i + 1..], tail));
    }
    assert cs[|cs|..] == [];
  }

  method WriteIndexes(w: Writer, xs: seq<IndexDef>, ghost tail: bytes)
    requires forall i :: 0 <= i < |xs| ==> |xs[i].columns| < TWO32
    modifies w
    ensures w.buf + tail == old(w.buf) + PutIndexes(xs, tail)
  {
    hide PutIndex;
    assert xs[0..] == xs;
    for i := 0 to |xs|
      invariant w.buf + PutIndexes(xs[i..], tail) == old(w.buf) + PutIndexes(xs, tail)
    {
      assert xs[i..][0] == xs[i] && xs[i..][1..] == xs[i + 1..];
      WriteIndex(w, xs[i], PutIndexes(xs[i + 1..], tail));
    }
    assert xs[|xs|..] == [];
  }

  method WriteIndex(w: Writer, x: IndexDef, ghost tail: bytes)
    requires |x.columns| < TWO32
    modifies w
    ensures w.buf + tail == old(w.buf) + PutIndex(x, tail)
  {
    hide Encode, PutName, PutNames;
    ghost var r1 := PutNames(x.columns, tail);
    ghost var r2 := PutUint(|x.columns|, 4, r1);
    w.Str(x.name, PutUint(Flag(x.unique), 1, r2));
    w.U8(if x.unique then 1 else 0);
    w.U32(|x.columns|);
    assert w.buf + r1 == old(w.buf) + PutIndex(x, tail);
    WriteNames(w, x.columns, tail);
  }

  /** Writing a definition within the limits and reading the bytes gives it back, and has read everything exactly if
      nothing follows it. */
  method TableDefRoundTrip(d: TableDef, extra: bytes) returns (back: Result<TableDef>, finished: bool)
    requires TableDefOk(d)
    ensures back == Success(SentTableDef(d)) && (finished <==> extra == [])
  {
    hide PutTableDef, TakeTableDef;
    var w := new Writer();
    WriteTableDef(w, d, extra);
    w.Raw(extra);
    var r := new Reader(w.buf);
    TableDefReads(d, extra);
    back := ReadTableDef(r);
    finished := r.Finish();
  }
}
