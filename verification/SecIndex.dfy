/** Secondary index keys and what an index holds (src/storage/sec_index.cpp, src/storage/table_store.cpp:999-1209).
    A key is sixteen bytes, the ordered value followed by the ordered row number, read as one number. */
module SecIndex {
  import opened BTree
  import opened Errors
  import opened LittleEndian
  import opened OrderedKey
  import opened RowImage

  datatype SecMeta = SecMeta(col: nat, unique: bool)

  /** What an index holds rows by: a 64-bit integer, not NULL. */
  predicate IsValue(c: Cell) {
    c.Int? && -0x8000_0000_0000_0000 <= c.v <= 0x7FFF_FFFF_FFFF_FFFF
  }

  /** The ordered code of a value; NULL has none and stays out of the index. */
  function EncodeSecValue(c: Cell): (code: Option<nat>)
    ensures code.Some? <==> IsValue(c)
  {
    match c
    case Null => None
    case Int(v) => if v + TWO63 >= 0 && v < TWO63 then Some(v + TWO63) else None
  }

  /** Value prefix, then the row number in the ordered encoding. */
  function SecKey(code: nat, row: nat): nat {
    code * TWO64 + (row + TWO63)
  }

  lemma SecKeyOrder(a: nat, r: nat, b: nat, s: nat)
    requires r < TWO63 && s < TWO63
    ensures SecKey(a, r) < SecKey(b, s) <==> a < b || (a == b && r < s)
    ensures SecKey(a, r) == SecKey(b, s) <==> a == b && r == s
  {
  }

  /** Codes of integers compare as the integers do, and tell them apart. */
  lemma CodeOrder(c: Cell, d: Cell)
    requires IsValue(c) && IsValue(d)
    ensures EncodeSecValue(c).value < EncodeSecValue(d).value <==> c.v < d.v
    ensures EncodeSecValue(c) == EncodeSecValue(d) <==> c == d
  {
  }

  // ---- floats, on their 64-bit patterns ----

  /** The encoding of a double other than NaN whose negative zero has been normalised. */
  function FloatCode(u: u64): u64 {
    if u >= TWO63 then TWO64 - 1 - u else u + TWO63
  }

  /** Sign and magnitude: what the numeric order of two doubles is decided by. */
  function FloatRank(u: u64): int {
    if u >= TWO63 then -(u - TWO63) else u
  }

  lemma FloatOrder(u: u64, w: u64)
    requires u != TWO63 && w != TWO63
    ensures FloatCode(u) < FloatCode(w) <==> FloatRank(u) < FloatRank(w)
    ensures FloatCode(u) == FloatCode(w) <==> FloatRank(u) == FloatRank(w)
  {
  }

  // ---- what an index holds ----

  /** Row r's entry, given the value of the indexed column. */
  function EntryOf(c: Cell, r: nat): Option<nat> {
    match EncodeSecValue(c)
    case None => None
    case Some(code) => Some(SecKey(code, r))
  }

  predicate Present(sec: map<nat, nat>, cells: map<nat, Cell>, r: nat)
    requires r in cells
  {
    EntryOf(cells[r], r).Some? ==> EntryOf(cells[r], r).value in sec && sec[EntryOf(cells[r], r).value] == r
  }

  predicate Justified(sec: map<nat, nat>, cells: map<nat, Cell>, k: nat)
    requires k in sec
  {
    sec[k] in cells && sec[k] < TWO63 && EntryOf(cells[sec[k]], sec[k]) == Some(k)
  }

  /** The index is exactly the entries of the rows in `cells`. */
  ghost predicate SecExact(sec: map<nat, nat>, cells: map<nat, Cell>) {
    && (forall r {:trigger Present(sec, cells, r)} :: r in cells ==> r < TWO63 && Present(sec, cells, r))
    && (forall k {:trigger Justified(sec, cells, k)} :: k in sec ==> Justified(sec, cells, k))
  }

  /** An exact index is the only one: maintaining it and rebuilding it give the same. */
  lemma ExactIsUnique(a: map<nat, nat>, b: map<nat, nat>, cells: map<nat, Cell>)
    requires SecExact(a, cells) && SecExact(b, cells)
    ensures a == b
  {
    forall k | k in a ensures k in b && b[k] == a[k] {
      assert Justified(a, cells, k) && Present(b, cells, a[k]);
    }
    forall k | k in b ensures k in a {
      assert Justified(b, cells, k) && Present(a, cells, b[k]);
    }
  }

  /** Which rows an exact index holds: those whose column is a 64-bit integer, each once. */
  lemma ExactRows(sec: map<nat, nat>, cells: map<nat, Cell>, r: nat)
    requires SecExact(sec, cells)
    ensures (exists k :: k in sec && sec[k] == r) <==> r in cells && IsValue(cells[r])
    ensures forall k, l :: k in sec && l in sec && sec[k] == r && sec[l] == r ==> k == l
  {
    forall k | k in sec && sec[k] == r ensures r in cells && EntryOf(cells[r], r) == Some(k) {
      assert Justified(sec, cells, k);
    }
    if r in cells && IsValue(cells[r]) {
      assert Present(sec, cells, r);
      assert EntryOf(cells[r], r).value in sec;
    }
  }

  function WithEntry(sec: map<nat, nat>, e: Option<nat>, r: nat): map<nat, nat> {
    match e case None => sec case Some(k) => sec[k := r]
  }

  function WithoutEntry(sec: map<nat, nat>, e: Option<nat>): map<nat, nat> {
    match e case None => sec case Some(k) => sec - {k}
  }

  lemma RowEnters(sec: map<nat, nat>, cells: map<nat, Cell>, r: nat, c: Cell)
    requires SecExact(sec, cells) && r !in cells && r < TWO63
    ensures SecExact(WithEntry(sec, EntryOf(c, r), r), cells[r := c])
  {
    var s', d := WithEntry(sec, EntryOf(c, r), r), cells[r := c];
    forall x | x in d ensures x < TWO63 && Present(s', d, x) {
      if x != r { assert Present(sec, cells, x); }
      SameEntry(c, r, d[x], x);
    }
    forall k | k in s' ensures Justified(s', d, k) {
      if k in sec { assert Justified(sec, cells, k); }
    }
  }

  lemma RowLeaves(sec: map<nat, nat>, cells: map<nat, Cell>, r: nat)
    requires SecExact(sec, cells) && r in cells
    ensures SecExact(WithoutEntry(sec, EntryOf(cells[r], r)), cells - {r})
  {
    var s', d := WithoutEntry(sec, EntryOf(cells[r], r)), cells - {r};
    assert Present(sec, cells, r);
    forall x | x in d ensures x < TWO63 && Present(s', d, x) {
      assert Present(sec, cells, x);
      SameEntry(cells[r], r, cells[x], x);
    }
    forall k | k in s' ensures Justified(s', d, k) {
      assert Justified(sec, cells, k);
    }
  }

  lemma SameEntry(c: Cell, r: nat, d: Cell, x: nat)
    requires r < TWO63 || x < TWO63
    ensures EntryOf(c, r).Some? && EntryOf(c, r) == EntryOf(d, x) && r < TWO63 && x < TWO63 ==> r == x
  {
  }

  /** Removing the old entry and then adding the new one. */
  lemma RowChanges(sec: map<nat, nat>, cells: map<nat, Cell>, r: nat, c: Cell)
    requires SecExact(sec, cells) && r in cells
    ensures SecExact(WithEntry(WithoutEntry(sec, EntryOf(cells[r], r)), EntryOf(c, r), r), cells[r := c])
  {
    assert Present(sec, cells, r);
    RowLeaves(sec, cells, r);
    RowEnters(WithoutEntry(sec, EntryOf(cells[r], r)), cells - {r}, r, c);
    assert (cells - {r})[r := c] == cells[r := c];
  }

  /** A row that is not in the index has no entry to take out. */
  lemma NoEntry(sec: map<nat, nat>, cells: map<nat, Cell>, r: nat, c: Cell)
    requires SecExact(sec, cells) && r !in cells && r < TWO63
    ensures WithoutEntry(sec, EntryOf(c, r)) == sec
  {
    if EntryOf(c, r).Some? && EntryOf(c, r).value in sec {
      var k := EntryOf(c, r).value;
      assert Justified(sec, cells, k);
      SameEntry(c, r, cells[sec[k]], sec[k]);
    }
  }

  /** Entries of further rows leave an index exact only if those rows have no value. */
  lemma ExactWithout(sec: map<nat, nat>, live: map<nat, Cell>, stray: map<nat, Cell>)
    requires live.Keys !! stray.Keys && SecExact(sec, live + stray)
    ensures SecExact(sec, live) <==> forall r :: r in stray ==> !IsValue(stray[r])
  {
    var all := live + stray;
    if SecExact(sec, live) {
      forall r | r in stray ensures !IsValue(stray[r]) {
        assert Present(sec, all, r);
        forall k | k in sec ensures sec[k] != r {
          assert Justified(sec, live, k) && r in stray.Keys && sec[k] in live.Keys;
        }
      }
    }
    if forall r :: r in stray ==> !IsValue(stray[r]) {
      forall r | r in live ensures r < TWO63 && Present(sec, live, r) {
        assert Present(sec, all, r);
      }
      forall k | k in sec ensures Justified(sec, live, k) {
        assert Justified(sec, all, k);
      }
    }
  }

  // ---- lookups ----

  /** The key range a value probe walks: the value with the smallest and the largest row suffix. */
  function ProbeLow(code: nat): nat {
    code * TWO64
  }

  function ProbeHigh(code: nat): nat {
    code * TWO64 + (TWO64 - 1)
  }

  lemma ProbeHits(code: nat, c: nat, r: nat)
    requires r < TWO63
    ensures ProbeLow(code) <= SecKey(c, r) <= ProbeHigh(code) <==> c == code
  {
  }

  /** Some row other than self has the value. */
  ghost predicate Conflict(cells: map<nat, Cell>, c: Cell, self: Option<nat>) {
    exists r :: r in cells && IsValue(cells[r]) && cells[r] == c && self != Some(r)
  }

  predicate ProbeConflict(sec: map<nat, nat>, code: nat, self: Option<nat>) {
    exists k :: k in sec && ProbeLow(code) <= k <= ProbeHigh(code) && self != Some(sec[k])
  }

  /** The prefix probe finds a conflict exactly when another row has the value. */
  lemma ProbeDecides(sec: map<nat, nat>, cells: map<nat, Cell>, c: Cell, self: Option<nat>)
    requires SecExact(sec, cells) && IsValue(c)
    ensures ProbeConflict(sec, EncodeSecValue(c).value, self) <==> Conflict(cells, c, self)
  {
    var code := EncodeSecValue(c).value;
    if ProbeConflict(sec, code, self) {
      var k :| k in sec && ProbeLow(code) <= k <= ProbeHigh(code) && self != Some(sec[k]);
      assert Justified(sec, cells, k);
      var r := sec[k];
      ProbeHits(code, EncodeSecValue(cells[r]).value, r);
      CodeOrder(cells[r], c);
    }
    if Conflict(cells, c, self) {
      var r :| r in cells && IsValue(cells[r]) && cells[r] == c && self != Some(r);
      assert Present(sec, cells, r);
      ProbeHits(code, code, r);
      assert SecKey(code, r) in sec;
    }
  }

  /** No two rows share a value. */
  ghost predicate AllDistinct(cells: map<nat, Cell>) {
    forall r, s :: r in cells && s in cells && r != s && IsValue(cells[r]) ==> cells[r] != cells[s]
  }

  /** Walking the probe range of an exact index lists the rows that have the value, by row number. */
  lemma LookupLists(sec: map<nat, nat>, cells: map<nat, Cell>, c: Cell, out: seq<(nat, nat)>)
    requires SecExact(sec, cells) && IsValue(c)
    requires Listing(out, sec, ProbeLow(EncodeSecValue(c).value), ProbeHigh(EncodeSecValue(c).value), true)
    ensures forall i, j :: 0 <= i < j < |out| ==> out[i].1 < out[j].1
    ensures forall i :: 0 <= i < |out| ==> out[i].1 in cells && cells[out[i].1] == c
    ensures forall r :: r in cells && cells[r] == c ==> exists i :: 0 <= i < |out| && out[i].1 == r
  {
    var code := EncodeSecValue(c).value;
    forall i | 0 <= i < |out|
      ensures out[i].1 in cells && cells[out[i].1] == c && out[i].1 < TWO63 && out[i].0 == SecKey(code, out[i].1)
    {
      LookupEntry(sec, cells, c, out[i].0, out[i].1);
    }
    forall i, j | 0 <= i < j < |out| ensures out[i].1 < out[j].1 {
      SecKeyOrder(code, out[i].1, code, out[j].1);
    }
    forall r | r in cells && cells[r] == c ensures exists i :: 0 <= i < |out| && out[i].1 == r {
      assert Present(sec, cells, r);
      ProbeHits(code, code, r);
      assert InRange(sec, SecKey(code, r), ProbeLow(code), ProbeHigh(code), true);
      var i :| 0 <= i < |out| && out[i].0 == SecKey(code, r);
      SecKeyOrder(code, out[i].1, code, r);
    }
  }

  lemma LookupEntry(sec: map<nat, nat>, cells: map<nat, Cell>, c: Cell, k: nat, r: nat)
    requires SecExact(sec, cells) && IsValue(c) && k in sec && sec[k] == r
    requires ProbeLow(EncodeSecValue(c).value) <= k <= ProbeHigh(EncodeSecValue(c).value)
    ensures r in cells && cells[r] == c && r < TWO63 && k == SecKey(EncodeSecValue(c).value, r)
  {
    assert Justified(sec, cells, k);
    ProbeHits(EncodeSecValue(c).value, EncodeSecValue(cells[r]).value, r);
    CodeOrder(cells[r], c);
  }
}
