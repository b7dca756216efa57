/** The wire layouts of src/net/value_codec.cpp. `Put...` is the encoding of a value in front of `rest`;
    `Take...` reads one value from the front and returns what follows it. Doubles are their bit patterns. */
module WireFormat {
  import opened Errors
  import opened LittleEndian
  import opened OrderedKey

  type bytes = seq<byte>

  const MAX_NAME: nat := 1024
  const MAX_COLS: nat := 4096
  const MAX_PK: nat := 16
  const MAX_SEC: nat := 64
  const MAX_INDEX_COLS: nat := 16
  const MAX_BLOCK_ROWS: nat := 1048576
  const MAX_BLOCK_COLS: nat := 64

  const VAL_NULL: nat := 0
  const VAL_I64: nat := 1
  const VAL_F64: nat := 2
  const VAL_VAR: nat := 3

  const BLK_I64: nat := 0
  const BLK_F64: nat := 1
  const BLK_VAR: nat := 2

  datatype Taken<+T> = Taken(value: T, rest: bytes)

  // ---- numbers and strings ----

  function PutUint(v: nat, width: nat, rest: bytes): bytes {
    Encode(v, width) + rest
  }

  function TakeUint(width: nat, b: bytes): (r: Option<Taken<nat>>)
    ensures r.Some? ==> |b| == width + |r.value.rest|
  {
    if |b| < width then None else Some(Taken(Decode(b[..width]), b[width..]))
  }

  lemma UintReads(v: nat, width: nat, rest: bytes)
    requires v < Pow256(width)
    ensures TakeUint(width, PutUint(v, width, rest)) == Some(Taken(v, rest))
  {
    DecodeEncode(v, width);
    var b := PutUint(v, width, rest);
    assert b[..width] == Encode(v, width) && b[width..] == rest;
  }

  function PutI64(v: i64, rest: bytes): bytes {
    PutUint(Pattern(v), 8, rest)
  }

  function TakeI64(b: bytes): (r: Option<Taken<i64>>)
    ensures r.Some? ==> |b| == 8 + |r.value.rest|
  {
    var u := TakeUint(8, b);
    if u == None then None else
      EncodeDecode(b[..8]);
      WidthValues();
      Some(Taken(FromPattern(u.value.value), u.value.rest))
  }

  lemma I64Reads(v: i64, rest: bytes)
    ensures TakeI64(PutI64(v, rest)) == Some(Taken(v, rest))
  {
    WidthValues();
    UintReads(Pattern(v), 8, rest);
  }

  function PutF64(bits: u64, rest: bytes): bytes {
    PutUint(bits, 8, rest)
  }

  function TakeF64(b: bytes): (r: Option<Taken<u64>>)
    ensures r.Some? ==> |b| == 8 + |r.value.rest|
  {
    var u := TakeUint(8, b);
    if u == None then None else
      EncodeDecode(b[..8]);
      WidthValues();
      var bits: u64 := u.value.value;
      Some(Taken(bits, u.value.rest))
  }

  lemma F64Reads(v: u64, rest: bytes)
    ensures TakeF64(PutF64(v, rest)) == Some(Taken(v, rest))
  {
    WidthValues();
    UintReads(v, 8, rest);
  }

  /** A length of the given width, then the bytes. */
  function PutString(s: bytes, width: nat, rest: bytes): bytes {
    PutUint(|s|, width, s + rest)
  }

  function TakeString(width: nat, b: bytes): (r: Option<Taken<bytes>>)
    ensures r.Some? ==> |b| >= width + |r.value.rest|
  {
    var n := TakeUint(width, b);
    if n == None then None
    else if n.value.value > |n.value.rest| then None
    else Some(Taken(n.value.rest[..n.value.value], n.value.rest[n.value.value..]))
  }

  lemma StringReads(s: bytes, width: nat, rest: bytes)
    requires |s| < Pow256(width)
    ensures TakeString(width, PutString(s, width, rest)) == Some(Taken(s, rest))
  {
    UintReads(|s|, width, s + rest);
    assert (s + rest)[..|s|] == s && (s + rest)[|s|..] == rest;
  }

  predicate ValidName(s: bytes) {
    0 < |s| <= MAX_NAME
  }

  function TakeName(b: bytes): (r: Option<Taken<bytes>>)
    ensures r.Some? ==> |r.value.rest| < |b|
  {
    var s := TakeString(2, b);
    if s.Some? && ValidName(s.value.value) then s else None
  }

  lemma NameReads(s: bytes, rest: bytes)
    requires ValidName(s)
    ensures TakeName(PutString(s, 2, rest)) == Some(Taken(s, rest))
  {
    WidthValues();
    StringReads(s, 2, rest);
  }

  function Flag(b: bool): nat {
    if b then 1 else 0
  }

  // ---- lists ----

  function PutAll<T>(xs: seq<T>, put: (T, bytes) -> bytes, rest: bytes): bytes {
    if xs == [] then rest else put(xs[0], PutAll(xs[1..], put, rest))
  }

  function TakeAll<T>(n: nat, take: bytes -> Option<Taken<T>>, b: bytes): Option<Taken<seq<T>>> {
    if n == 0 then Some(Taken([], b)) else
      var x := take(b);
      if x == None then None else
        var xs := TakeAll(n - 1, take, x.value.rest);
        if xs == None then None else Some(Taken([x.value.value] + xs.value.value, xs.value.rest))
  }

  /** In front of anything, what was put for x is taken as y. */
  ghost predicate Reads<T(!new)>(put: (T, bytes) -> bytes, take: bytes -> Option<Taken<T>>, x: T, y: T) {
    forall rest: bytes :: take(put(x, rest)) == Some(Taken(y, rest))
  }

  lemma {:induction false} AllRead<T(!new)>(put: (T, bytes) -> bytes, take: bytes -> Option<Taken<T>>,
                                           xs: seq<T>, ys: seq<T>, rest: bytes)
    requires |xs| == |ys| && forall i :: 0 <= i < |xs| ==> Reads(put, take, xs[i], ys[i])
    ensures TakeAll(|xs|, take, PutAll(xs, put, rest)) == Some(Taken(ys, rest))
  {
    if xs == [] {
      assert ys == [];
    } else {
      assert Reads(put, take, xs[0], ys[0]);
      forall i | 0 <= i < |xs| - 1 ensures Reads(put, take, xs[1..][i], ys[1..][i]) {
        assert Reads(put, take, xs[i + 1], ys[i + 1]);
      }
      AllRead(put, take, xs[1..], ys[1..], rest);
      assert ys == [ys[0]] + ys[1..];
    }
  }

  function PutName(s: bytes, rest: bytes): bytes {
    PutString(s, 2, rest)
  }

  function PutNames(names: seq<bytes>, rest: bytes): bytes {
    PutAll(names, PutName, rest)
  }

  function TakeNames(n: nat, b: bytes): Option<Taken<seq<bytes>>> {
    TakeAll(n, TakeName, b)
  }

  lemma NamesRead(names: seq<bytes>, rest: bytes)
    requires forall i :: 0 <= i < |names| ==> ValidName(names[i])
    ensures TakeNames(|names|, PutNames(names, rest)) == Some(Taken(names, rest))
  {
    forall i | 0 <= i < |names| ensures Reads(PutName, TakeName, names[i], names[i]) {
      forall r: bytes ensures TakeName(PutName(names[i], r)) == Some(Taken(names[i], r)) {
        NameReads(names[i], r);
      }
    }
    AllRead(PutName, TakeName, names, names, rest);
  }

  // ---- table definitions ----

  datatype DefaultValue = DefaultValue(isNull: bool, i: i64, bits: u64)

  datatype ColumnDef = ColumnDef(name: bytes, kind: nat, len: u32, nullable: bool, hasDefault: bool,
    value: DefaultValue)

  datatype IndexDef = IndexDef(name: bytes, unique: bool, columns: seq<bytes>)

  datatype TableDef = TableDef(name: bytes, columns: seq<ColumnDef>, primaryKey: seq<bytes>, secondary: seq<IndexDef>,
                               maxRowsHint: u64, rowCap: u32)

  const NO_DEFAULT := DefaultValue(true, 0, 0)

  predicate ValidKind(t: nat) {
    1 <= t <= 10
  }

  predicate IsFloat(kind: nat) {
    kind == 5 || kind == 6
  }

  predicate IsVar(kind: nat) {
    kind == 8 || kind == 9
  }

  /** What survives of a default: only the field the column's type selects is sent. */
  function SentDefault(c: ColumnDef): DefaultValue {
    if !c.hasDefault || c.value.isNull then NO_DEFAULT
    else if IsFloat(c.kind) then DefaultValue(false, 0, c.value.bits)
    else DefaultValue(false, c.value.i, 0)
  }

  function SentColumn(c: ColumnDef): ColumnDef {
    c.(value := SentDefault(c))
  }

  function PutDefault(c: ColumnDef, rest: bytes): bytes {
    if !c.hasDefault then rest
    else if c.value.isNull then PutUint(1, 1, rest)
    else if IsFloat(c.kind) then PutUint(0, 1, PutUint(1, 1, PutF64(c.value.bits, rest)))
    else PutUint(0, 1, PutUint(0, 1, PutI64(c.value.i, rest)))
  }

  function TakeDefault(hasDefault: bool, b: bytes): Option<Taken<DefaultValue>> {
    if !hasDefault then Some(Taken(NO_DEFAULT, b)) else
      var isNull := TakeUint(1, b);
      if isNull == None then None
      else if isNull.value.value != 0 then Some(Taken(NO_DEFAULT, isNull.value.rest))
      else
        var kind := TakeUint(1, isNull.value.rest);
        if kind == None || kind.value.value > 1 then None
        else if kind.value.value == 1 then
          var v := TakeF64(kind.value.rest);
          if v == None then None else Some(Taken(DefaultValue(false, 0, v.value.value), v.value.rest))
        else
          var v := TakeI64(kind.value.rest);
          if v == None then None else Some(Taken(DefaultValue(false, v.value.value, 0), v.value.rest))
  }

  lemma DefaultReads(c: ColumnDef, rest: bytes)
    ensures TakeDefault(c.hasDefault, PutDefault(c, rest)) == Some(Taken(SentDefault(c), rest))
  {
    hide Encode, TakeUint, TakeF64, TakeI64, PutUint, PutF64, PutI64;
    WidthValues();
    if c.hasDefault {
      if c.value.isNull {
        UintReads(1, 1, rest);
      } else if IsFloat(c.kind) {
        F64Reads(c.value.bits, rest);
        UintReads(1, 1, PutF64(c.value.bits, rest));
        UintReads(0, 1, PutUint(1, 1, PutF64(c.value.bits, rest)));
      } else {
        I64Reads(c.value.i, rest);
        UintReads(0, 1, PutI64(c.value.i, rest));
        UintReads(0, 1, PutUint(0, 1, PutI64(c.value.i, rest)));
      }
    }
  }

  function PutColumn(c: ColumnDef, rest: bytes): bytes {
    PutName(c.name, PutUint(c.kind, 1, PutUint(c.len, 4, PutUint(Flag(c.nullable), 1,
      PutUint(Flag(c.hasDefault), 1, PutDefault(c, rest))))))
  }

  function TakeColumn(b: bytes): Option<Taken<ColumnDef>> {
    var name := TakeName(b);
    if name == None then None else
    var kind := TakeUint(1, name.value.rest);
    if kind == None || !ValidKind(kind.value.value) then None else
    var len := TakeUint(4, kind.value.rest);
    if len == None || len.value.value >= TWO32 then None else
    var nullable := TakeUint(1, len.value.rest);
    if nullable == None then None else
    var hasDefault := TakeUint(1, nullable.value.rest);
    if hasDefault == None then None else
    var value := TakeDefault(hasDefault.value.value != 0, hasDefault.value.rest);
    if value == None then None else
    Some(Taken(ColumnDef(name.value.value, kind.value.value, len.value.value, nullable.value.value != 0,
                         hasDefault.value.value != 0, value.value.value), value.value.rest))
  }

  predicate ColumnOk(c: ColumnDef) {
    ValidName(c.name) && ValidKind(c.kind)
  }

  lemma ColumnReads(c: ColumnDef, rest: bytes)
    requires ColumnOk(c)
    ensures TakeColumn(PutColumn(c, rest)) == Some(Taken(SentColumn(c), rest))
  {
    hide TakeUint, TakeName, TakeDefault, PutUint, PutName, PutDefault, SentDefault;
    WidthValues();
    var r1 := PutDefault(c, rest);
    var r2 := PutUint(Flag(c.hasDefault), 1, r1);
    var r3 := PutUint(Flag(c.nullable), 1, r2);
    var r4 := PutUint(c.len, 4, r3);
    var r5 := PutUint(c.kind, 1, r4);
    PutNameIs(c.name, r5);
    NameReads(c.name, r5);
    UintReads(c.kind, 1, r4);
    UintReads(c.len, 4, r3);
    UintReads(Flag(c.nullable), 1, r2);
    UintReads(Flag(c.hasDefault), 1, r1);
    DefaultReads(c, rest);
  }

  lemma PutNameIs(s: bytes, rest: bytes)
    ensures PutName(s, rest) == PutString(s, 2, rest)
  {
  }

  function PutIndex(x: IndexDef, rest: bytes): bytes {
    PutName(x.name, PutUint(Flag(x.unique), 1, PutUint(|x.columns|, 4, PutNames(x.columns, rest))))
  }

  function TakeIndex(b: bytes): Option<Taken<IndexDef>> {
    var name := TakeName(b);
    if name == None then None else
    var unique := TakeUint(1, name.value.rest);
    if unique == None then None else
    var n := TakeUint(4, unique.value.rest);
    if n == None || n.value.value == 0 || n.value.value > MAX_INDEX_COLS then None else
    var columns := TakeNames(n.value.value, n.value.rest);
    if columns == None then None else
    Some(Taken(IndexDef(name.value.value, unique.value.value != 0, columns.value.value), columns.value.rest))
  }

  predicate IndexOk(x: IndexDef) {
    && ValidName(x.name) && 0 < |x.columns| <= MAX_INDEX_COLS
    && forall i :: 0 <= i < |x.columns| ==> ValidName(x.columns[i])
  }

  lemma IndexReads(x: IndexDef, rest: bytes)
    requires IndexOk(x)
    ensures TakeIndex(PutIndex(x, rest)) == Some(Taken(x, rest))
  {
    hide TakeUint, TakeName, TakeNames, PutUint, PutName, PutNames;
    WidthValues();
    var r1 := PutNames(x.columns, rest);
    var r2 := PutUint(|x.columns|, 4, r1);
    var r3 := PutUint(Flag(x.unique), 1, r2);
    PutNameIs(x.name, r3);
    NameReads(x.name, r3);
    UintReads(Flag(x.unique), 1, r2);
    UintReads(|x.columns|, 4, r1);
    NamesRead(x.columns, rest);
  }

  function PutColumns(cs: seq<ColumnDef>, rest: bytes): bytes {
    PutAll(cs, PutColumn, rest)
  }

  function TakeColumns(n: nat, b: bytes): Option<Taken<seq<ColumnDef>>> {
    TakeAll(n, TakeColumn, b)
  }

  function PutIndexes(xs: seq<IndexDef>, rest: bytes): bytes {
    PutAll(xs, PutIndex, rest)
  }

  function TakeIndexes(n: nat, b: bytes): Option<Taken<seq<IndexDef>>> {
    TakeAll(n, TakeIndex, b)
  }

  function PutTableDef(d: TableDef, rest: bytes): bytes {
    PutName(d.name, PutUint(|d.columns|, 4, PutColumns(d.columns,
      PutUint(|d.primaryKey|, 4, PutNames(d.primaryKey,
        PutUint(|d.secondary|, 4, PutIndexes(d.secondary,
          PutUint(d.maxRowsHint, 8, PutUint(d.rowCap, 4, rest)))))))))
  }

  function TakeTableDef(b: bytes): Option<Taken<TableDef>> {
    var name := TakeName(b);
    if name == None then None else
    var nCols := TakeUint(4, name.value.rest);
    if nCols == None || nCols.value.value == 0 || nCols.value.value > MAX_COLS then None else
    var columns := TakeColumns(nCols.value.value, nCols.value.rest);
    if columns == None then None else
    var nPk := TakeUint(4, columns.value.rest);
    if nPk == None || nPk.value.value > MAX_PK then None else
    var pk := TakeNames(nPk.value.value, nPk.value.rest);
    if pk == None then None else
    var nSec := TakeUint(4, pk.value.rest);
    if nSec == None || nSec.value.value > MAX_SEC then None else
    var sec := TakeIndexes(nSec.value.value, nSec.value.rest);
    if sec == None then None else
    var hint := TakeUint(8, sec.value.rest);
    if hint == None || hint.value.value >= TWO64 then None else
    var cap := TakeUint(4, hint.value.rest);
    if cap == None || cap.value.value >= TWO32 then None else
    Some(Taken(TableDef(name.value.value, columns.value.value, pk.value.value, sec.value.value,
                        hint.value.value, cap.value.value), cap.value.rest))
  }

  /** The limits the reader enforces. */
  predicate TableDefOk(d: TableDef) {
    && ValidName(d.name)
    && 0 < |d.columns| <= MAX_COLS && (forall i :: 0 <= i < |d.columns| ==> ColumnOk(d.columns[i]))
    && |d.primaryKey| <= MAX_PK && (forall i :: 0 <= i < |d.primaryKey| ==> ValidName(d.primaryKey[i]))
    && |d.secondary| <= MAX_SEC && (forall i :: 0 <= i < |d.secondary| ==> IndexOk(d.secondary[i]))
  }

  function SentTableDef(d: TableDef): TableDef {
    d.(columns := SentColumns(d.columns))
  }

  function SentColumns(cs: seq<ColumnDef>): (r: seq<ColumnDef>)
    ensures |r| == |cs| && forall i :: 0 <= i < |cs| ==> r[i] == SentColumn(cs[i])
  {
    seq(|cs|, i requires 0 <= i < |cs| => SentColumn(cs[i]))
  }

  lemma ColumnsRead(cs: seq<ColumnDef>, rest: bytes)
    requires forall i :: 0 <= i < |cs| ==> ColumnOk(cs[i])
    ensures TakeColumns(|cs|, PutColumns(cs, rest)) == Some(Taken(SentColumns(cs), rest))
  {
    hide TakeColumn, PutColumn;
    forall i | 0 <= i < |cs| ensures Reads(PutColumn, TakeColumn, cs[i], SentColumns(cs)[i]) {
      forall r: bytes ensures TakeColumn(PutColumn(cs[i], r)) == Some(Taken(SentColumns(cs)[i], r)) {
        ColumnReads(cs[i], r);
      }
    }
    AllRead(PutColumn, TakeColumn, cs, SentColumns(cs), rest);
  }

  lemma IndexesRead(xs: seq<IndexDef>, rest: bytes)
    requires forall i :: 0 <= i < |xs| ==> IndexOk(xs[i])
    ensures TakeIndexes(|xs|, PutIndexes(xs, rest)) == Some(Taken(xs, rest))
  {
    hide TakeIndex, PutIndex;
    forall i | 0 <= i < |xs| ensures Reads(PutIndex, TakeIndex, xs[i], xs[i]) {
      forall r: bytes ensures TakeIndex(PutIndex(xs[i], r)) == Some(Taken(xs[i], r)) {
        IndexReads(xs[i], r);
      }
    }
    AllRead(PutIndex, TakeIndex, xs, xs, rest);
  }

  /** A table definition within the limits is read back, up to defaults that are not sent, and exactly its
      bytes are consumed whatever follows them. */
  lemma TableDefReads(d: TableDef, rest: bytes)
    requires TableDefOk(d)
    ensures TakeTableDef(PutTableDef(d, rest)) == Some(Taken(SentTableDef(d), rest))
  {
    hide TakeUint, TakeName, TakeNames, TakeColumns, TakeIndexes, PutUint, PutName, PutNames, PutColumns, PutIndexes;
    WidthValues();
    var r1 := PutUint(d.rowCap, 4, rest);
    var r2 := PutUint(d.maxRowsHint, 8, r1);
    var r3 := PutIndexes(d.secondary, r2);
    var r4 := PutUint(|d.secondary|, 4, r3);
    var r5 := PutNames(d.primaryKey, r4);
    var r6 := PutUint(|d.primaryKey|, 4, r5);
    var r7 := PutColumns(d.columns, r6);
    var r8 := PutUint(|d.columns|, 4, r7);
    PutNameIs(d.name, r8);
    NameReads(d.name, r8);
    UintReads(|d.columns|, 4, r7);
    ColumnsRead(d.columns, r6);
    UintReads(|d.primaryKey|, 4, r5);
    NamesRead(d.primaryKey, r4);
    UintReads(|d.secondary|, 4, r3);
    IndexesRead(d.secondary, r2);
    UintReads(d.maxRowsHint, 8, r1);
    UintReads(d.rowCap, 4, rest);
  }

  // ---- what the reader accepts ----

  lemma {:induction false} NamesTaken(n: nat, b: bytes)
    requires TakeNames(n, b).Some?
    ensures |TakeNames(n, b).value.value| == n && forall i :: 0 <= i < n ==> ValidName(TakeNames(n, b).value.value[i])
  {
    if n > 0 {
      NamesTaken(n - 1, TakeName(b).value.rest);
    }
  }

  lemma {:induction false} ColumnsTaken(n: nat, b: bytes)
    requires TakeColumns(n, b).Some?
    ensures |TakeColumns(n, b).value.value| == n && forall i :: 0 <= i < n ==>
      ColumnOk(TakeColumns(n, b).value.value[i])
  {
    hide TakeColumn;
    if n > 0 {
      ColumnTaken(b);
      ColumnsTaken(n - 1, TakeColumn(b).value.rest);
    }
  }

  lemma ColumnTaken(b: bytes)
    requires TakeColumn(b).Some?
    ensures ColumnOk(TakeColumn(b).value.value)
  {
    hide TakeUint, TakeDefault, TakeString;
  }

  lemma {:induction false} IndexesTaken(n: nat, b: bytes)
    requires TakeIndexes(n, b).Some?
    ensures |TakeIndexes(n, b).value.value| == n && forall i :: 0 <= i < n ==> IndexOk(TakeIndexes(n, b).value.value[i])
  {
    if n > 0 {
      IndexTaken(b);
      IndexesTaken(n - 1, TakeIndex(b).value.rest);
    }
  }

  lemma IndexTaken(b: bytes)
    requires TakeIndex(b).Some?
    ensures IndexOk(TakeIndex(b).value.value)
  {
    hide TakeNames, TakeUint;
    var unique := TakeUint(1, TakeName(b).value.rest);
    var n := TakeUint(4, unique.value.rest);
    NamesTaken(n.value.value, n.value.rest);
  }

  /** Whatever bytes are accepted spell a definition within the limits, so it can be sent on and read again. */
  lemma AcceptedTableDef(b: bytes)
    requires TakeTableDef(b).Some?
    ensures TableDefOk(TakeTableDef(b).value.value)
  {
    hide TakeUint, TakeNames, TakeColumns, TakeIndexes, TakeName, ColumnOk, IndexOk;
    NameTaken(b);
    var nCols := TakeUint(4, TakeName(b).value.rest).value;
    var columns := TakeColumns(nCols.value, nCols.rest).value;
    ColumnsTaken(nCols.value, nCols.rest);
    var nPk := TakeUint(4, columns.rest).value;
    var pk := TakeNames(nPk.value, nPk.rest).value;
    NamesTaken(nPk.value, nPk.rest);
    var nSec := TakeUint(4, pk.rest).value;
    IndexesTaken(nSec.value, nSec.rest);
  }

  lemma NameTaken(b: bytes)
    requires TakeName(b).Some?
    ensures ValidName(TakeName(b).value.value)
  {
  }

  // ---- rows ----

  datatype Value = VNull | VInt(i: i64) | VReal(bits: u64) | VBytes(s: bytes)

  function PutValue(v: Value, rest: bytes): bytes {
    match v
    case VNull => PutUint(VAL_NULL, 1, rest)
    case VInt(i) => PutUint(VAL_I64, 1, PutI64(i, rest))
    case VReal(bits) => PutUint(VAL_F64, 1, PutF64(bits, rest))
    case VBytes(s) => PutUint(VAL_VAR, 1, PutString(s, 4, rest))
  }

  /** A value of a column of this type: the tag must fit the type. */
  function TakeValue(kind: nat, b: bytes): Option<Taken<Value>> {
    var tag := TakeUint(1, b);
    if tag == None then None
    else if tag.value.value == VAL_NULL then Some(Taken(VNull, tag.value.rest))
    else if IsFloat(kind) then
      if tag.value.value != VAL_F64 then None else
        var v := TakeF64(tag.value.rest);
        if v == None then None else Some(Taken(VReal(v.value.value), v.value.rest))
    else if IsVar(kind) then
      if tag.value.value != VAL_VAR then None else
        var v := TakeString(4, tag.value.rest);
        if v == None then None else Some(Taken(VBytes(v.value.value), v.value.rest))
    else if ValidKind(kind) then
      if tag.value.value != VAL_I64 then None else
        var v := TakeI64(tag.value.rest);
        if v == None then None else Some(Taken(VInt(v.value.value), v.value.rest))
    else None
  }

  predicate ValueFits(v: Value, kind: nat) {
    && ValidKind(kind)
    && match v
       case VNull => true
       case VInt(_) => !IsFloat(kind) && !IsVar(kind)
       case VReal(_) => IsFloat(kind)
       case VBytes(s) => IsVar(kind) && |s| < TWO32
  }

  lemma ValueReads(v: Value, kind: nat, rest: bytes)
    requires ValueFits(v, kind)
    ensures TakeValue(kind, PutValue(v, rest)) == Some(Taken(v, rest))
  {
    hide TakeUint, TakeI64, TakeF64, TakeString, PutUint, PutI64, PutF64, PutString;
    WidthValues();
    match v
    case VNull => UintReads(VAL_NULL, 1, rest);
    case VInt(i) =>
      I64Reads(i, rest);
      UintReads(VAL_I64, 1, PutI64(i, rest));
    case VReal(bits) =>
      F64Reads(bits, rest);
      UintReads(VAL_F64, 1, PutF64(bits, rest));
    case VBytes(s) =>
      StringReads(s, 4, rest);
      UintReads(VAL_VAR, 1, PutString(s, 4, rest));
  }

  function PutRow(row: seq<Value>, rest: bytes): bytes {
    if row == [] then rest else PutValue(row[0], PutRow(row[1..], rest))
  }

  function TakeRow(kinds: seq<nat>, b: bytes): Option<Taken<seq<Value>>> {
    if kinds == [] then Some(Taken([], b)) else
      var v := TakeValue(kinds[0], b);
      if v == None then None else
        var vs := TakeRow(kinds[1..], v.value.rest);
        if vs == None then None else Some(Taken([v.value.value] + vs.value.value, vs.value.rest))
  }

  lemma {:induction false} RowReads(row: seq<Value>, kinds: seq<nat>, rest: bytes)
    requires |row| == |kinds| && forall i :: 0 <= i < |row| ==> ValueFits(row[i], kinds[i])
    ensures TakeRow(kinds, PutRow(row, rest)) == Some(Taken(row, rest))
  {
    hide TakeValue, PutValue;
    if row != [] {
      ValueReads(row[0], kinds[0], PutRow(row[1..], rest));
      RowReads(row[1..], kinds[1..], rest);
      assert row == [row[0]] + row[1..];
    }
  }

  // ---- column blocks ----

  datatype BlockData = I64s(i: seq<i64>) | F64s(f: seq<u64>) | Vars(v: seq<bytes>)

  datatype BlockColumn = BlockColumn(name: bytes, nulls: Option<bytes>, data: BlockData)

  datatype Block = Block(table: bytes, rows: nat, columns: seq<BlockColumn>)

  function PutVar(s: bytes, rest: bytes): bytes {
    PutString(s, 4, rest)
  }

  function TakeVar(b: bytes): Option<Taken<bytes>> {
    TakeString(4, b)
  }

  function DataCode(d: BlockData): nat {
    match d case I64s(_) => BLK_I64 case F64s(_) => BLK_F64 case Vars(_) => BLK_VAR
  }

  function PutData(d: BlockData, rest: bytes): bytes {
    match d
    case I64s(xs) => PutAll(xs, PutI64, rest)
    case F64s(xs) => PutAll(xs, PutF64, rest)
    case Vars(xs) => PutAll(xs, PutVar, rest)
  }

  function TakeData(code: nat, rows: nat, b: bytes): Option<Taken<BlockData>> {
    if code == BLK_I64 then
      var xs := TakeAll(rows, TakeI64, b);
      if xs == None then None else Some(Taken(I64s(xs.value.value), xs.value.rest))
    else if code == BLK_F64 then
      var xs := TakeAll(rows, TakeF64, b);
      if xs == None then None else Some(Taken(F64s(xs.value.value), xs.value.rest))
    else
      var xs := TakeAll(rows, TakeVar, b);
      if xs == None then None else Some(Taken(Vars(xs.value.value), xs.value.rest))
  }

  function DataSize(d: BlockData): nat {
    match d case I64s(xs) => |xs| case F64s(xs) => |xs| case Vars(xs) => |xs|
  }

  predicate DataOk(d: BlockData, rows: nat) {
    DataSize(d) == rows && (d.Vars? ==> forall i :: 0 <= i < |d.v| ==> |d.v[i]| < TWO32)
  }

  lemma DataReads(d: BlockData, rows: nat, rest: bytes)
    requires DataOk(d, rows)
    ensures TakeData(DataCode(d), rows, PutData(d, rest)) == Some(Taken(d, rest))
  {
    hide TakeI64, TakeF64, TakeString, PutI64, PutF64, PutString;
    match d
    case I64s(xs) =>
      forall i | 0 <= i < |xs| ensures Reads(PutI64, TakeI64, xs[i], xs[i]) {
        forall r: bytes ensures TakeI64(PutI64(xs[i], r)) == Some(Taken(xs[i], r)) { I64Reads(xs[i], r); }
      }
      AllRead(PutI64, TakeI64, xs, xs, rest);
    case F64s(xs) =>
      forall i | 0 <= i < |xs| ensures Reads(PutF64, TakeF64, xs[i], xs[i]) {
        forall r: bytes ensures TakeF64(PutF64(xs[i], r)) == Some(Taken(xs[i], r)) { F64Reads(xs[i], r); }
      }
      AllRead(PutF64, TakeF64, xs, xs, rest);
    case Vars(xs) =>
      WidthValues();
      forall i | 0 <= i < |xs| ensures Reads(PutVar, TakeVar, xs[i], xs[i]) {
        forall r: bytes ensures TakeVar(PutVar(xs[i], r)) == Some(Taken(xs[i], r)) { StringReads(xs[i], 4, r); }
      }
      AllRead(PutVar, TakeVar, xs, xs, rest);
  }

  function PutNulls(nulls: Option<bytes>, rest: bytes): bytes {
    match nulls case None => rest case Some(flags) => flags + rest
  }

  function TakeNulls(has: bool, rows: nat, b: bytes): Option<Taken<Option<bytes>>> {
    if !has then Some(Taken(None, b))
    else if |b| < rows then None
    else Some(Taken(Some(b[..rows]), b[rows..]))
  }

  lemma NullsRead(nulls: Option<bytes>, rows: nat, rest: bytes)
    requires nulls.Some? ==> |nulls.value| == rows
    ensures TakeNulls(nulls.Some?, rows, PutNulls(nulls, rest)) == Some(Taken(nulls, rest))
  {
    if nulls.Some? {
      assert (nulls.value + rest)[..rows] == nulls.value && (nulls.value + rest)[rows..] == rest;
    }
  }

  function PutBlockColumn(c: BlockColumn, rest: bytes): bytes {
    PutName(c.name, PutUint(DataCode(c.data), 1,
      PutUint(Flag(c.nulls.Some?), 1, PutNulls(c.nulls, PutData(c.data, rest)))))
  }

  function TakeBlockColumn(rows: nat, b: bytes): Option<Taken<BlockColumn>> {
    var name := TakeName(b);
    if name == None then None else
    var code := TakeUint(1, name.value.rest);
    if code == None then None else
    var has := TakeUint(1, code.value.rest);
    if has == None || code.value.value > BLK_VAR || has.value.value > 1 then None else
    var nulls := TakeNulls(has.value.value != 0, rows, has.value.rest);
    if nulls == None then None else
    var data := TakeData(code.value.value, rows, nulls.value.rest);
    if data == None then None else
    Some(Taken(BlockColumn(name.value.value, nulls.value.value, data.value.value), data.value.rest))
  }

  predicate BlockColumnOk(c: BlockColumn, rows: nat) {
    ValidName(c.name) && (c.nulls.Some? ==> |c.nulls.value| == rows) && DataOk(c.data, rows)
  }

  lemma BlockColumnReads(c: BlockColumn, rows: nat, rest: bytes)
    requires BlockColumnOk(c, rows)
    ensures TakeBlockColumn(rows, PutBlockColumn(c, rest)) == Some(Taken(c, rest))
  {
    hide TakeUint, TakeName, TakeData, TakeNulls, PutUint, PutName, PutData, PutNulls;
    WidthValues();
    var r1 := PutData(c.data, rest);
    var r2 := PutNulls(c.nulls, r1);
    var r3 := PutUint(Flag(c.nulls.Some?), 1, r2);
    var r4 := PutUint(DataCode(c.data), 1, r3);
    PutNameIs(c.name, r4);
    NameReads(c.name, r4);
    UintReads(DataCode(c.data), 1, r3);
    UintReads(Flag(c.nulls.Some?), 1, r2);
    NullsRead(c.nulls, rows, r1);
    DataReads(c.data, rows, rest);
  }

  function PutBlock(k: Block, rest: bytes): bytes {
    PutName(k.table, PutUint(k.rows, 4, PutUint(|k.columns|, 4, PutAll(k.columns, PutBlockColumn, rest))))
  }

  function TakeBlock(b: bytes): Option<Taken<Block>> {
    var table := TakeName(b);
    if table == None then None else
    var rows := TakeUint(4, table.value.rest);
    if rows == None then None else
    var n := TakeUint(4, rows.value.rest);
    if n == None || rows.value.value == 0 || rows.value.value > MAX_BLOCK_ROWS
       || n.value.value == 0 || n.value.value > MAX_BLOCK_COLS then None else
    var columns := TakeBlockColumns(rows.value.value, n.value.value, n.value.rest);
    if columns == None then None else
    Some(Taken(Block(table.value.value, rows.value.value, columns.value.value), columns.value.rest))
  }

  function TakeBlockColumns(rows: nat, n: nat, b: bytes): Option<Taken<seq<BlockColumn>>> {
    TakeAll(n, BlockColumnTaker(rows), b)
  }

  function BlockColumnTaker(rows: nat): bytes -> Option<Taken<BlockColumn>> {
    b => TakeBlockColumn(rows, b)
  }

  predicate BlockOk(k: Block) {
    && ValidName(k.table) && 0 < k.rows <= MAX_BLOCK_ROWS && 0 < |k.columns| <= MAX_BLOCK_COLS
    && forall i :: 0 <= i < |k.columns| ==> BlockColumnOk(k.columns[i], k.rows)
  }

  /** A column block within the limits is read back, and exactly its bytes are consumed. */
  lemma BlockReads(k: Block, rest: bytes)
    requires BlockOk(k)
    ensures TakeBlock(PutBlock(k, rest)) == Some(Taken(k, rest))
  {
    hide TakeUint, TakeName, TakeBlockColumn, PutUint, PutName, PutBlockColumn;
    WidthValues();
    forall i | 0 <= i < |k.columns|
      ensures Reads(PutBlockColumn, BlockColumnTaker(k.rows), k.columns[i], k.columns[i])
    {
      forall r: bytes
        ensures BlockColumnTaker(k.rows)(PutBlockColumn(k.columns[i], r)) == Some(Taken(k.columns[i], r))
      {
        BlockColumnReads(k.columns[i], k.rows, r);
      }
    }
    AllRead(PutBlockColumn, BlockColumnTaker(k.rows), k.columns, k.columns, rest);
    var r1 := PutAll(k.columns, PutBlockColumn, rest);
    var r2 := PutUint(|k.columns|, 4, r1);
    var r3 := PutUint(k.rows, 4, r2);
    PutNameIs(k.table, r3);
    NameReads(k.table, r3);
    UintReads(k.rows, 4, r2);
    UintReads(|k.columns|, 4, r1);
  }

  // ---- result headers ----

  datatype HeaderColumn = HeaderColumn(name: bytes, kind: nat)

  datatype Header = Header(table: bytes, columns: seq<HeaderColumn>, rows: u32)

  function PutHeaderColumn(c: HeaderColumn, rest: bytes): bytes {
    PutName(c.name, PutUint(c.kind, 1, rest))
  }

  function TakeHeaderColumn(b: bytes): Option<Taken<HeaderColumn>> {
    var name := TakeName(b);
    if name == None then None else
    var kind := TakeUint(1, name.value.rest);
    if kind == None || !ValidKind(kind.value.value) then None else
    Some(Taken(HeaderColumn(name.value.value, kind.value.value), kind.value.rest))
  }

  function PutHeader(h: Header, rest: bytes): bytes {
    PutName(h.table, PutUint(|h.columns|, 4, PutAll(h.columns, PutHeaderColumn, PutUint(h.rows, 4, rest))))
  }

  function TakeHeader(b: bytes): Option<Taken<Header>> {
    var table := TakeName(b);
    if table == None then None else
    var n := TakeUint(4, table.value.rest);
    if n == None || n.value.value == 0 || n.value.value > MAX_COLS then None else
    var columns := TakeAll(n.value.value, TakeHeaderColumn, n.value.rest);
    if columns == None then None else
    var rows := TakeUint(4, columns.value.rest);
    if rows == None || rows.value.value >= TWO32 then None else
    Some(Taken(Header(table.value.value, columns.value.value, rows.value.value), rows.value.rest))
  }

  predicate HeaderOk(h: Header) {
    && ValidName(h.table) && 0 < |h.columns| <= MAX_COLS
    && forall i :: 0 <= i < |h.columns| ==> ValidName(h.columns[i].name) && ValidKind(h.columns[i].kind)
  }

  lemma HeaderReads(h: Header, rest: bytes)
    requires HeaderOk(h)
    ensures TakeHeader(PutHeader(h, rest)) == Some(Taken(h, rest))
  {
    hide TakeUint, TakeName, PutUint, PutName;
    WidthValues();
    forall i | 0 <= i < |h.columns| ensures Reads(PutHeaderColumn, TakeHeaderColumn, h.columns[i], h.columns[i]) {
      var c := h.columns[i];
      forall r: bytes ensures TakeHeaderColumn(PutHeaderColumn(c, r)) == Some(Taken(c, r)) {
        PutNameIs(c.name, PutUint(c.kind, 1, r));
        NameReads(c.name, PutUint(c.kind, 1, r));
        UintReads(c.kind, 1, r);
      }
    }
    var r1 := PutUint(h.rows, 4, rest);
    AllRead(PutHeaderColumn, TakeHeaderColumn, h.columns, h.columns, r1);
    var r2 := PutAll(h.columns, PutHeaderColumn, r1);
    var r3 := PutUint(|h.columns|, 4, r2);
    PutNameIs(h.table, r3);
    NameReads(h.table, r3);
    UintReads(|h.columns|, 4, r2);
    UintReads(h.rows, 4, rest);
  }
}
