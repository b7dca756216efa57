/** Little-endian integers as byte sequences: the wire form shared by the WAL records and the
    network codec. Encoding truncates to the given width, as the C++ casts do. */
module LittleEndian {

  type byte = x: int | 0 <= x < 256

  const TWO16: nat := 0x1_0000
  const TWO32: nat := 0x1_0000_0000
  const TWO64: nat := 0x1_0000_0000_0000_0000

  type u16 = x: int | 0 <= x < 0x1_0000
  type u32 = x: int | 0 <= x < 0x1_0000_0000
  type u64 = x: int | 0 <= x < 0x1_0000_0000_0000_0000

  function Pow256(n: nat): (p: nat)
    ensures p >= 1
  {
    if n == 0 then 1 else 256 * Pow256(n - 1)
  }

  lemma WidthValues()
    ensures Pow256(1) == 256 && Pow256(2) == TWO16 && Pow256(4) == TWO32 && Pow256(8) == TWO64
  {
    assert Pow256(2) == 256 * Pow256(1);
    assert Pow256(3) == 256 * Pow256(2);
    assert Pow256(4) == 256 * Pow256(3);
    assert Pow256(5) == 256 * Pow256(4);
    assert Pow256(6) == 256 * Pow256(5);
    assert Pow256(7) == 256 * Pow256(6);
  }

  function Encode(v: nat, n: nat): (s: seq<byte>)
    ensures |s| == n
    decreases v + n
  {
    if n == 0 then [] else [v % 256] + Encode(v / 256, n - 1)
  }

  function Decode(s: seq<byte>): nat {
    if s == [] then 0 else s[0] + 256 * Decode(s[1..])
  }

  lemma {:induction false} DecodeEncode(v: nat, n: nat)
    requires v < Pow256(n)
    ensures Decode(Encode(v, n)) == v
  {
    if n == 0 {
    } else {
      assert v / 256 < Pow256(n - 1);
      DecodeEncode(v / 256, n - 1);
      assert Encode(v, n)[1..] == Encode(v / 256, n - 1);
    }
  }

  lemma {:induction false} EncodeDecode(s: seq<byte>)
    ensures Decode(s) < Pow256(|s|)
    ensures Encode(Decode(s), |s|) == s
  {
    if s == [] {
    } else {
      EncodeDecode(s[1..]);
      var d := Decode(s[1..]);
      assert Decode(s) == s[0] + 256 * d;
      assert Decode(s) % 256 == s[0] && Decode(s) / 256 == d;
      assert s == [s[0]] + s[1..];
    }
  }

  function Zeros(n: nat): (s: seq<byte>)
    ensures |s| == n && forall i :: 0 <= i < n ==> s[i] == 0
  {
    seq(n, _ => 0)
  }

  /** Overwrite a stretch of a byte area. */
  function Splice(a: seq<byte>, p: nat, b: seq<byte>): (r: seq<byte>)
    requires p + |b| <= |a|
    ensures |r| == |a|
  {
    a[..p] + b + a[p + |b|..]
  }

  lemma SpliceOutside(a: seq<byte>, p: nat, b: seq<byte>, s: nat, e: nat)
    requires p + |b| <= |a| && s <= e <= |a|
    requires e <= p || p + |b| <= s
    ensures Splice(a, p, b)[s..e] == a[s..e]
  {
    var r := Splice(a, p, b);
    assert forall i :: s <= i < e ==> r[i] == a[i];
  }
}
