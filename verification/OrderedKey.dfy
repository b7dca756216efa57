/** Byte strings as index keys (src/infra/shared_btree.hpp:17-32): compared with memcmp, and built from
    signed integers so that the byte order is the number order. */
module OrderedKey {
  import opened LittleEndian

  /** The number a byte string spells, most significant byte first. */
  function Spelled(s: seq<byte>): (n: nat)
    ensures n < Pow256(|s|)
  {
    if s == [] then 0 else
      var m := Spelled(s[..|s| - 1]);
      assert m * 256 + s[|s| - 1] < Pow256(|s| - 1) * 256;
      m * 256 + s[|s| - 1]
  }

  /** memcmp over strings of one length: the sign of the first difference. */
  function Memcmp(a: seq<byte>, b: seq<byte>): int
    requires |a| == |b|
  {
    if a == [] then 0
    else if a[0] != b[0] then (if a[0] < b[0] then -1 else 1)
    else Memcmp(a[1..], b[1..])
  }

  function Sign(x: int): int {
    if x < 0 then -1 else if x == 0 then 0 else 1
  }

  lemma {:induction false} SpelledHead(s: seq<byte>)
    requires s != []
    ensures Spelled(s) == s[0] * Pow256(|s| - 1) + Spelled(s[1..])
  {
    if |s| > 1 {
      var n := |s| - 1;
      var front := s[..n];
      SpelledHead(front);
      assert front[1..] == s[1..][..n - 1];
      assert s[1..][n - 1] == s[n];
      Regroup(s[0], Pow256(n - 1), Spelled(front[1..]), s[n]);
    }
  }

  lemma Regroup(h: nat, p: nat, r: nat, t: nat)
    ensures (h * p + r) * 256 + t == h * (256 * p) + (r * 256 + t)
  {
  }

  lemma LeadingDigit(x: nat, y: nat, p: nat, r: nat, s: nat)
    requires x < y && r < p
    ensures x * p + r < y * p + s
  {
    assert y * p == x * p + (y - x) * p;
    assert (y - x - 1) * p >= 0;
  }

  /** Comparing bytes is comparing the spelled numbers. */
  lemma {:induction false} MemcmpIsNumeric(a: seq<byte>, b: seq<byte>)
    requires |a| == |b|
    ensures Memcmp(a, b) == Sign(Spelled(a) - Spelled(b))
  {
    hide Spelled, Pow256;
    if a != [] {
      SpelledHead(a);
      SpelledHead(b);
      MemcmpIsNumeric(a[1..], b[1..]);
      var p, x, y := Pow256(|a| - 1), Spelled(a[1..]), Spelled(b[1..]);
      if a[0] < b[0] {
        LeadingDigit(a[0], b[0], p, x, y);
      } else if b[0] < a[0] {
        LeadingDigit(b[0], a[0], p, y, x);
      }
    }
  }

  lemma SpelledLast(s: seq<byte>)
    requires s != []
    ensures Spelled(s) == 256 * Spelled(s[..|s| - 1]) + s[|s| - 1]
  {
  }

  /** Distinct strings of one length spell distinct numbers: keys may be taken as numbers. */
  lemma {:induction false} SpelledInjective(a: seq<byte>, b: seq<byte>)
    requires |a| == |b| && Spelled(a) == Spelled(b)
    ensures a == b
  {
    hide Spelled;
    if a != [] {
      var n := |a| - 1;
      SpelledLast(a);
      SpelledLast(b);
      SpelledInjective(a[..n], b[..n]);
      assert a == a[..n] + [a[n]] && b == b[..n] + [b[n]];
    }
  }

  // ---- signed integers ----

  const TWO63: nat := 0x8000_0000_0000_0000

  type i64 = x: int | -0x8000_0000_0000_0000 <= x < 0x8000_0000_0000_0000

  /** The 64-bit pattern of a signed integer. */
  function Pattern(v: i64): u64 {
    if v < 0 then v + TWO64 else v
  }

  function FromPattern(u: u64): i64 {
    if u < TWO63 then u else u - TWO64
  }

  /** u ^ (1 << 63) */
  function FlipTop(u: u64): u64 {
    if u < TWO63 then u + TWO63 else u - TWO63
  }

  /** The loop of EncodeOrderedInt64: the low byte goes to the back, from the end to the front. */
  method EncodeOrderedInt64(v: i64) returns (out: seq<byte>)
    ensures |out| == 8 && Spelled(out) == v + TWO63
    ensures DecodedOrderedInt64(out) == v
  {
    hide Spelled, Pow256, DecodedOrderedInt64;
    var u: nat := FlipTop(Pattern(v));
    ghost var all := u;
    out := [];
    WidthValues();
    Edges();
    var i := 7;
    while i >= 0
      invariant -1 <= i <= 7 && |out| == 7 - i
      invariant u < Pow256(i + 1)
      invariant Spelled(out) + u * Pow256(7 - i) == all
    {
      PrependByte(u % 256, out);
      DivBound(u, i);
      MoveByte(u, 7 - i);
      out := [u % 256] + out;
      u := u / 256;
      i := i - 1;
    }
    DecodeReads(out);
  }

  lemma Edges()
    ensures Spelled([]) == 0 && Pow256(0) == 1
  {
  }

  lemma MoveByte(u: nat, k: nat)
    ensures (u / 256) * Pow256(k + 1) + (u % 256) * Pow256(k) == u * Pow256(k)
  {
    var q, p := u / 256, Pow256(k);
    Regroup(q, p, 0, 0);
    assert (q * 256 + u % 256) * p == q * 256 * p + (u % 256) * p;
  }

  lemma DivBound(u: nat, i: nat)
    requires u < Pow256(i + 1)
    ensures u / 256 < Pow256(i)
  {
  }

  lemma PrependByte(b: byte, s: seq<byte>)
    ensures Spelled([b] + s) == b * Pow256(|s|) + Spelled(s)
  {
    SpelledHead([b] + s);
    assert ([b] + s)[1..] == s;
  }

  function DecodedOrderedInt64(s: seq<byte>): i64
    requires |s| == 8
  {
    WidthValues();
    FromPattern(FlipTop(Spelled(s)))
  }

  lemma DecodeReads(s: seq<byte>)
    requires |s| == 8
    ensures DecodedOrderedInt64(s) == Spelled(s) - TWO63
  {
  }

  method DecodeOrderedInt64(s: seq<byte>) returns (v: i64)
    requires |s| == 8
    ensures v == Spelled(s) - TWO63
  {
    var u: nat := 0;
    for i := 0 to 8
      invariant u == Spelled(s[..i])
    {
      assert s[..i + 1][..i] == s[..i];
      u := u * 256 + s[i];
    }
    assert s[..8] == s;
    WidthValues();
    DecodeReads(s);
    v := FromPattern(FlipTop(u));
  }

  /** The byte order of two encoded integers is their numeric order. */
  lemma OrderedInt64Order(v: i64, w: i64, a: seq<byte>, b: seq<byte>)
    requires |a| == |b| == 8 && Spelled(a) == v + TWO63 && Spelled(b) == w + TWO63
    ensures Memcmp(a, b) == Sign(v - w)
  {
    MemcmpIsNumeric(a, b);
  }
}
