/** The wire writer and reader as cursors (src/net/codec.hpp, src/net/value_codec.cpp). The writer appends;
    the reader, once it has failed, stays failed and returns zeros. A ghost `tail` stands for whatever is
    written afterwards. */
module Wire {
  import opened Arith
  import opened Errors
  import opened LittleEndian
  import opened OrderedKey
  import opened WireFormat

  lemma EncodeLow(v: nat, n: nat)
    ensures Encode(v, n + 1) == [v % 256] + Encode(v / 256, n)
  {
  }

  /** Two halves, low one first. */
  lemma {:induction false} EncodeHalves(v: nat, a: nat, b: nat, p: nat, q: nat, r: nat)
    requires p == Pow256(a) && v == q * p + r && r < p
    ensures Encode(v, a + b) == Encode(r, a) + Encode(q, b)
    decreases a
  {
    hide Encode;
    if a == 0 {
      EncodeNone(r);
    } else {
      var p1 := Pow256(a - 1);
      LowDigit(q, p1, r);
      EncodeHalves(v / 256, a - 1, b, p1, q, r / 256);
      EncodeLow(r, a - 1);
      EncodeLow(v, a - 1 + b);
    }
  }

  lemma EncodeNone(v: nat)
    ensures Encode(v, 0) == []
  {
  }

  lemma LowDigit(q: nat, p: nat, r: nat)
    requires r < 256 * p
    ensures var v := q * (256 * p) + r; v / 256 == q * p + r / 256 && v % 256 == r % 256 && r / 256 < p
  {
    var v := q * (256 * p) + r;
    assert q * (256 * p) == (q * p) * 256;
    Euclid(v, 256, q * p + r / 256, r % 256);
  }

  class Writer {
    var buf: bytes

    constructor ()
      ensures buf == []
    {
      buf := [];
    }

    method U8(v: byte)
      modifies this
      ensures buf == old(buf) + Encode(v, 1)
    {
      assert Encode(v, 1) == [v] + Encode(v / 256, 0);
      buf := buf + [v];
    }

    method U16(v: u16)
      modifies this
      ensures buf == old(buf) + Encode(v, 2)
    {
      hide Encode, Pow256;
      WidthValues();
      EncodeHalves(v, 1, 1, 256, v / 256, v % 256);
      U8(v % 256);
      U8(v / 256);
    }

    method U32(v: u32)
      modifies this
      ensures buf == old(buf) + Encode(v, 4)
    {
      hide Encode, Pow256;
      WidthValues();
      EncodeHalves(v, 2, 2, TWO16, v / TWO16, v % TWO16);
      U16(v % TWO16);
      U16(v / TWO16);
    }

    method U64(v: u64)
      modifies this
      ensures buf == old(buf) + Encode(v, 8)
    {
      hide Encode, Pow256;
      WidthValues();
      EncodeHalves(v, 4, 4, TWO32, v / TWO32, v % TWO32);
      U32(v % TWO32);
      U32(v / TWO32);
    }

    method I64(v: i64, ghost tail: bytes)
      modifies this
      ensures buf + tail == old(buf) + PutI64(v, tail)
    {
      U64(Pattern(v));
    }

    method F64(v: u64, ghost tail: bytes)
      modifies this
      ensures buf + tail == old(buf) + PutF64(v, tail)
    {
      U64(v);
    }

    method Raw(s: bytes)
      modifies this
      ensures buf == old(buf) + s
    {
      buf := buf + s;
    }

    /** The length prefix is cut to 16 bits. */
    method Str(s: bytes, ghost tail: bytes)
      modifies this
      ensures buf + tail == old(buf) + PutName(s, tail)
    {
      hide Encode, Pow256;
      WidthValues();
      CutLength(|s|, 2, TWO16);
      U16(|s| % TWO16);
      Raw(s);
    }

    method Var(s: bytes, ghost tail: bytes)
      modifies this
      ensures buf + tail == old(buf) + PutString(s, 4, tail)
    {
      hide Encode, Pow256;
      WidthValues();
      CutLength(|s|, 4, TWO32);
      U32(|s| % TWO32);
      Raw(s);
    }
  }

  lemma CutLength(v: nat, n: nat, p: nat)
    requires p == Pow256(n)
    ensures Encode(v % p, n) == Encode(v, n)
  {
    hide Encode, Pow256;
    var q, r := v / p, v % p;
    assert v == q * p + r;
    EncodeHalves(v, n, 0, p, q, r);
    EncodeNone(q);
  }

  class Reader {
    const p: bytes
    var off: nat
    var ok: bool

    ghost predicate Valid()
      reads this
    {
      off <= |p|
    }

    ghost function Rest(): bytes
      requires Valid()
      reads this
    {
      p[off..]
    }

    constructor (p: bytes)
      ensures Valid() && ok && this.p == p && Rest() == p
    {
      this.p, off, ok := p, 0, true;
    }

    function Remaining(): nat
      requires Valid()
      reads this
    {
      if ok then |p| - off else 0
    }

    /** Everything was read and nothing failed. */
    predicate Finish()
      requires Valid()
      reads this
    {
      ok && off == |p|
    }

    method Poison()
      requires Valid()
      modifies this
      ensures Valid() && !ok && !Finish() && off == old(off)
    {
      ok := false;
    }

    method Need(n: nat) returns (b: bool)
      requires Valid()
      modifies this
      ensures Valid() && off == old(off) && b == ok == (old(ok) && n <= |p| - off)
    {
      if !ok || n > |p| - off {
        ok := false;
        return false;
      }
      return true;
    }

    /** What a numeric read does: takes the number, or fails for good and returns 0. */
    twostate predicate TookUint(width: nat, v: nat)
      requires old(Valid())
      reads this
    {
      && Valid()
      && if old(ok) && TakeUint(width, old(Rest())).Some?
         then ok && Some(Taken(v, Rest())) == TakeUint(width, old(Rest()))
         else !ok && v == 0 && off == old(off)
    }

    method U8() returns (v: byte)
      requires Valid()
      modifies this
      ensures TookUint(1, v)
    {
      var b := Need(1);
      if !b { return 0; }
      v := p[off];
      assert Rest()[..1] == [v] && Decode([v]) == v;
      off := off + 1;
      assert Rest() == old(Rest())[1..];
    }

    /** A number of the given width, byte by byte. */
    method Number(width: nat) returns (v: nat)
      requires Valid()
      modifies this
      ensures TookUint(width, v) && v < Pow256(width)
    {
      var b := Need(width);
      if !b { return 0; }
      v := 0;
      var at: nat := width;
      EncodeDecode(p[off..off + width]);
      while at > 0
        invariant off == old(off) && ok && at <= width
        invariant off + width <= |p|
        invariant v == Decode(p[off + at..off + width])
      {
        at := at - 1;
        ghost var s := p[off + at..off + width];
        assert s[1..] == p[off + at + 1..off + width];
        v := p[off + at] + 256 * v;
      }
      assert Rest()[..width] == p[off..off + width];
      off := off + width;
      assert Rest() == old(Rest())[width..];
    }

    method U32() returns (v: u32)
      requires Valid()
      modifies this
      ensures TookUint(4, v)
    {
      WidthValues();
      v := Number(4);
    }

    method U64() returns (v: u64)
      requires Valid()
      modifies this
      ensures TookUint(8, v)
    {
      WidthValues();
      v := Number(8);
    }

    /** What a composite read does on a reader that has not failed. */
    twostate predicate Took<T>(t: Option<Taken<T>>, new r: Result<T>)
      requires old(Valid())
      reads this
    {
      && Valid()
      && if old(ok) && t.Some? then r == Success(t.value.value) && ok && Rest() == t.value.rest
         else r == Failure(ProtocolError)
    }

    method I64() returns (v: i64)
      requires Valid()
      modifies this
      ensures Valid()
      ensures if old(ok) && TakeI64(old(Rest())).Some?
              then ok && TakeI64(old(Rest())) == Some(Taken(v, Rest()))
              else !ok
    {
      var u := U64();
      v := FromPattern(u);
    }

    method F64() returns (v: u64)
      requires Valid()
      modifies this
      ensures Valid()
      ensures if old(ok) && TakeF64(old(Rest())).Some?
              then ok && TakeF64(old(Rest())) == Some(Taken(v, Rest()))
              else !ok
    {
      v := U64();
    }

    /** Length-prefixed bytes. */
    method Bytes(width: nat) returns (r: Option<bytes>)
      requires Valid()
      modifies this
      ensures Valid()
      ensures if old(ok) && TakeString(width, old(Rest())).Some?
              then ok && r.Some? && TakeString(width, old(Rest())) == Some(Taken(r.value, Rest()))
              else !ok && r == None
    {
      var n := Number(width);
      ghost var after := Rest();
      var b := Need(n);
      if !b { return None; }
      r := Some(p[off..off + n]);
      assert after[..n] == p[off..off + n];
      off := off + n;
      assert Rest() == after[n..];
    }

    /** A run of bytes without a length. */
    method Raw(n: nat) returns (r: Option<bytes>)
      requires Valid()
      modifies this
      ensures Valid()
      ensures if old(ok) && n <= |old(Rest())|
              then ok && r == Some(old(Rest())[..n]) && Rest() == old(Rest())[n..]
              else !ok && r == None && off == old(off)
    {
      var b := Need(n);
      if !b { return None; }
      r := Some(p[off..off + n]);
      assert Rest()[..n] == p[off..off + n];
      off := off + n;
      assert Rest() == old(Rest())[n..];
    }

    method Name() returns (r: Result<bytes>)
      requires Valid()
      modifies this
      ensures Took(TakeName(old(Rest())), r)
    {
      var s := Bytes(2);
      if s == None || !ValidName(s.value) { return Failure(ProtocolError); }
      return Success(s.value);
    }
  }
}
