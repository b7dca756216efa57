/** The shared B+ tree over pages that change in place (src/infra/shared_btree.hpp). The allocator is a
    source of pages that may refuse; `spans` and `entries` exist only for the proof. */
module BTree {
  import opened BTreeDepth
  import opened BTreeModel
  import opened Errors

  /** From call number `calls` on, what the allocator grants is clear of the pages in use and of
      every other grant; 0 is a refusal. */
  ghost predicate SupplyOk(used: set<nat>, grants: nat -> nat, calls: nat) {
    && (forall i :: i >= calls && grants(i) != 0 ==> grants(i) < OFFSET_LIMIT)
    && (forall i, a :: i >= calls && grants(i) != 0 && a in used ==> Clear(grants(i), a))
    && (forall i, j :: calls <= i < j && grants(i) != 0 && grants(j) != 0 ==> Clear(grants(i), grants(j)))
  }

  lemma Granted(used: set<nat>, grants: nat -> nat, calls: nat)
    requires PagesApart(used) && SupplyOk(used, grants, calls)
    ensures SupplyOk(used, grants, calls + 1)
    ensures grants(calls) != 0 ==> grants(calls) !in used && PagesApart(used + {grants(calls)})
    ensures grants(calls) != 0 ==> SupplyOk(used + {grants(calls)}, grants, calls + 1)
  {
  }

  predicate Beyond(k: nat, hi: nat, hiIncl: bool) {
    k > hi || (k == hi && !hiIncl)
  }

  function LowKey(lo: nat, loIncl: bool): nat {
    if loIncl then lo else lo + 1
  }

  /** What a cursor shows: the least entry from `from` on, as long as it is not past the upper bound. */
  ghost predicate Shows<V>(m: map<nat, V>, from: nat, hi: nat, hiIncl: bool, valid: bool, key: nat, val: Option<V>) {
    if valid then Least(m, from, key) && !Beyond(key, hi, hiIncl) && val == Some(m[key])
    else forall k :: k in m && from <= k ==> Beyond(k, hi, hiIncl)
  }

  /** The entries of the interval, each once, in ascending order. */
  ghost predicate Listing<V>(out: seq<(nat, V)>, m: map<nat, V>, from: nat, hi: nat, hiIncl: bool) {
    && (forall i, j :: 0 <= i < j < |out| ==> out[i].0 < out[j].0)
    && (forall i :: 0 <= i < |out| ==> InRange(m, out[i].0, from, hi, hiIncl) && m[out[i].0] == out[i].1)
    && (forall k: nat :: InRange(m, k, from, hi, hiIncl) ==> exists i :: 0 <= i < |out| && out[i].0 == k)
  }

  predicate InRange<V>(m: map<nat, V>, k: nat, from: nat, hi: nat, hiIncl: bool) {
    k in m && from <= k && !Beyond(k, hi, hiIncl)
  }

  lemma PastHi<V>(c: Caps, s: Store<V>, m: map<nat, V>, from: nat, key: nat, hi: nat, hiIncl: bool)
    requires Holds(c, s, m) && Least(m, from, key)
    ensures key in m && key < c.keyMax
    ensures Beyond(key, hi, hiIncl) ==> forall k :: k in m && from <= k ==> Beyond(k, hi, hiIncl)
  {
    hide Tree, LeafHolds;
  }

  /** The part of the interval below `to` is listed. */
  ghost predicate Listed<V>(out: seq<(nat, V)>, m: map<nat, V>, from: nat, to: nat, hi: nat, hiIncl: bool) {
    && (forall i, j :: 0 <= i < j < |out| ==> out[i].0 < out[j].0)
    && (forall i :: 0 <= i < |out| ==> InRange(m, out[i].0, from, hi, hiIncl) && m[out[i].0] == out[i].1)
    && (forall k: nat :: InRange(m, k, from, hi, hiIncl) && k < to ==> exists i :: 0 <= i < |out| && out[i].0 == k)
  }

  lemma ListedNext<V>(out: seq<(nat, V)>, m: map<nat, V>, from: nat, to: nat, hi: nat, hiIncl: bool, key: nat)
    requires Listed(out, m, from, to, hi, hiIncl) && from <= to
    requires forall i :: 0 <= i < |out| ==> out[i].0 < to
    requires Least(m, to, key) && !Beyond(key, hi, hiIncl)
    ensures Listed(out + [(key, m[key])], m, from, key + 1, hi, hiIncl)
    ensures forall i :: 0 <= i <= |out| ==> (out + [(key, m[key])])[i].0 < key + 1
  {
    var out' := out + [(key, m[key])];
    forall k: nat | InRange(m, k, from, hi, hiIncl) && k < key + 1
      ensures exists i :: 0 <= i < |out'| && out'[i].0 == k
    {
      if k < to {
        var i :| 0 <= i < |out| && out[i].0 == k;
        assert out'[i].0 == k;
      } else {
        assert out'[|out|].0 == k;
      }
    }
  }

  lemma ListedAll<V>(out: seq<(nat, V)>, m: map<nat, V>, from: nat, to: nat, hi: nat, hiIncl: bool)
    requires Listed(out, m, from, to, hi, hiIncl)
    requires forall k :: k in m && to <= k ==> Beyond(k, hi, hiIncl)
    ensures Listing(out, m, from, hi, hiIncl)
  {
  }

  function Firsts<V>(out: seq<(nat, V)>): (r: seq<nat>)
    ensures |r| == |out| && forall i :: 0 <= i < |out| ==> r[i] == out[i].0
  {
    seq(|out|, i requires 0 <= i < |out| => out[i].0)
  }

  lemma {:induction false} SameAscending(a: seq<nat>, b: seq<nat>)
    requires Ascending(a) && Ascending(b)
    requires forall k :: k in a <==> k in b
    ensures a == b
  {
    var x, y := if a != [] then a[0] else 0, if b != [] then b[0] else 0;
    assert x in a ==> x in b;
    assert y in b ==> y in a;
    if a != [] {
      forall k | true ensures k in a[1..] <==> k in b[1..] {
        assert k in a[1..] <==> k in a && k != a[0] by { assert a == [a[0]] + a[1..]; }
        assert k in b[1..] <==> k in b && k != b[0] by { assert b == [b[0]] + b[1..]; }
      }
      SameAscending(a[1..], b[1..]);
      assert a == [a[0]] + a[1..] && b == [b[0]] + b[1..];
    }
  }

  lemma ListingKeys<V>(out: seq<(nat, V)>, m: map<nat, V>, from: nat, hi: nat, hiIncl: bool, k: nat)
    requires Listing(out, m, from, hi, hiIncl)
    ensures Ascending(Firsts(out)) && (k in Firsts(out) <==> InRange(m, k, from, hi, hiIncl))
  {
    if InRange(m, k, from, hi, hiIncl) {
      var i :| 0 <= i < |out| && out[i].0 == k;
      assert Firsts(out)[i] == k;
    }
  }

  /** There is only one such listing. */
  lemma ListingUnique<V>(a: seq<(nat, V)>, b: seq<(nat, V)>, m: map<nat, V>, from: nat, hi: nat, hiIncl: bool)
    requires Listing(a, m, from, hi, hiIncl) && Listing(b, m, from, hi, hiIncl)
    ensures a == b
  {
    ListingKeys(a, m, from, hi, hiIncl, 0);
    ListingKeys(b, m, from, hi, hiIncl, 0);
    forall k | true ensures k in Firsts(a) <==> k in Firsts(b) {
      ListingKeys(a, m, from, hi, hiIncl, k);
      ListingKeys(b, m, from, hi, hiIncl, k);
    }
    SameAscending(Firsts(a), Firsts(b));
    forall i | 0 <= i < |a| ensures a[i] == b[i] {
      assert Firsts(a)[i] == a[i].0 && Firsts(b)[i] == b[i].0;
    }
  }

  class Cursor<V> {
    const hi: nat
    const hiIncl: bool
    var valid: bool
    var leaf: nat
    var idx: nat
    var key: nat
    var val: Option<V>

    constructor (hi: nat, hiIncl: bool)
      ensures this.hi == hi && this.hiIncl == hiIncl && !valid && val == None
    {
      this.hi, this.hiIncl := hi, hiIncl;
      valid, leaf, idx, key, val := false, 0, 0, 0, None;
    }
  }

  class SharedBTree<V> {
    const caps: Caps
    const grants: nat -> nat
    var nodes: map<nat, Node<V>>
    var rootOff: nat
    var count: nat
    var calls: nat
    ghost var spans: map<nat, Span>
    ghost var entries: map<nat, V>

    ghost function Image(): Store<V>
      reads this
    {
      Store(nodes, spans, rootOff)
    }

    ghost predicate PagesOk()
      reads this
    {
      PagesApart(nodes.Keys) && SupplyOk(nodes.Keys, grants, calls)
    }

    ghost predicate Valid()
      reads this
    {
      && CapsOk(caps) && PagesOk()
      && count == |entries|
      && if rootOff == 0 then entries == map[] && nodes == map[] else Holds(caps, Image(), entries)
    }

    lemma Basics()
      requires Valid() && rootOff != 0
      ensures Holds(caps, Image(), entries) && Tree(caps, Image())
      ensures spans.Keys == nodes.Keys && rootOff in nodes && 0 !in nodes && spans[rootOff] == Span(0, caps.keyMax)
      ensures 0 < CapOf(caps, nodes[rootOff])
    {
      hide Holds, Tree, PagesOk;
      HoldsTree(caps, Image(), entries);
    }

    constructor (caps: Caps, grants: nat -> nat)
      requires CapsOk(caps) && SupplyOk({}, grants, 0)
      ensures Valid() && entries == map[] && this.caps == caps && this.grants == grants && calls == 0
    {
      this.caps, this.grants := caps, grants;
      nodes, rootOff, count, calls := map[], 0, 0, 0;
      spans, entries := map[], map[];
    }

    /** Binary search for the first key not below the target. */
    static method LowerBound(keys: seq<nat>, target: nat) returns (pos: nat)
      requires Ascending(keys)
      ensures IsLowerBound(keys, target, pos)
    {
      var lo, hi := 0, |keys|;
      while lo < hi
        invariant 0 <= lo <= hi <= |keys|
        invariant forall i :: 0 <= i < lo ==> keys[i] < target
        invariant forall i :: hi <= i < |keys| ==> target <= keys[i]
      {
        var mid := lo + (hi - lo) / 2;
        if keys[mid] < target {
          lo := mid + 1;
        } else {
          hi := mid;
        }
      }
      pos := lo;
    }

    /** Binary search for the first key above the target. */
    static method StrictUpper(keys: seq<nat>, target: nat) returns (pos: nat)
      requires Ascending(keys)
      ensures IsStrictUpper(keys, target, pos)
    {
      var lo, hi := 0, |keys|;
      while lo < hi
        invariant 0 <= lo <= hi <= |keys|
        invariant forall i :: 0 <= i < lo ==> keys[i] <= target
        invariant forall i :: hi <= i < |keys| ==> target < keys[i]
      {
        var mid := lo + (hi - lo) / 2;
        if keys[mid] <= target {
          lo := mid + 1;
        } else {
          hi := mid;
        }
      }
      pos := lo;
    }

    method Find(key: nat) returns (r: Option<V>)
      requires Valid() && key < caps.keyMax
      ensures r == if key in entries then Some(entries[key]) else None
    {
      hide NodeOk, PairApart, LeafHolds, PagesApart, SupplyOk;
      if rootOff == 0 { return None; }
      var off := rootOff;
      while true
        invariant off in nodes && off in spans && Within(key, spans[off])
        decreases Level(nodes[off])
      {
        var n := nodes[off];
        LeafIsOk(caps, Image(), off);
        if n.Leaf? {
          var pos := LowerBound(n.keys, key);
          LeafDecides(caps, Image(), off, key, pos, entries);
          return if pos < |n.keys| && n.keys[pos] == key then Some(n.vals[pos]) else None;
        }
        var hop := StrictUpper(n.keys, key);
        RouteKid(caps, Image(), off, key, hop);
        off := n.kids[hop];
      }
    }

    method AllocNode() returns (off: nat)
      modifies `calls
      ensures off == grants(old(calls)) && calls == old(calls) + 1
    {
      off := grants(calls);
      calls := calls + 1;
    }

    /** The contents of the two halves: a leaf's entries are moved as one run, an inner node's one by one. */
    static method Halve(n: Node<V>, right: nat) returns (l: Node<V>, r: Node<V>, sep: nat)
      requires |n.keys| > 0
      requires n.Leaf? ==> |n.vals| == |n.keys|
      requires n.Inner? ==> |n.kids| == |n.keys| + 1
      ensures l == LeftHalf(n, right) && r == RightHalf(n) && sep == Separator(n)
    {
      if n.Leaf? {
        var half := |n.keys| / 2;
        r := Leaf(n.keys[half..], n.vals[half..], n.next);
        l := Leaf(n.keys[..half], n.vals[..half], right);
        sep := r.keys[0];
      } else {
        var mid := |n.keys| / 2;
        sep := n.keys[mid];
        var ks, cs := [], [n.kids[mid + 1]];
        for j := mid + 1 to |n.keys|
          invariant ks == n.keys[mid + 1..j] && cs == n.kids[mid + 1..j + 1]
        {
          ks := ks + [n.keys[j]];
          cs := cs + [n.kids[j + 1]];
        }
        r := Inner(n.level, ks, cs);
        l := Inner(n.level, n.keys[..mid], n.kids[..mid + 1]);
      }
    }

    /** Cuts a full child in two and hooks the right part into the parent. */
    method SplitChild(parent: nat, idx: nat, child: nat) returns (e: Err)
      requires CapsOk(caps) && PagesOk() && Holds(caps, Image(), entries)
      requires FullKid(caps, Image(), parent, idx) && child == nodes[parent].kids[idx]
      modifies `nodes, `spans, `calls
      ensures calls == old(calls) + 1 && PagesOk() && Holds(caps, Image(), entries)
      ensures e == if grants(old(calls)) == 0 then OutOfMemory else Ok
      ensures e == OutOfMemory ==> Image() == old(Image())
      ensures e == Ok ==> Splittable(caps, old(Image()), parent, idx, grants(old(calls)))
      ensures e == Ok ==> Image() == SplitStore(caps, old(Image()), parent, idx, grants(old(calls)))
    {
      hide Holds, Tree, PagesApart, SupplyOk, LeftHalf, RightHalf;
      ghost var s := Image();
      Granted(nodes.Keys, grants, calls);
      var right := AllocNode();
      if right == 0 { return OutOfMemory; }
      HoldsTree(caps, s, entries);
      KidFacts(caps, s, parent, idx);
      HalfFacts(caps, s, child, right);
      SplitHolds(caps, s, parent, idx, right, entries);
      var n := nodes[child];
      var l, r, sep := Halve(n, right);
      nodes := nodes[child := l][right := r];
      var p := nodes[parent];
      nodes := nodes[parent := Inner(p.level, p.keys[..idx] + [sep] + p.keys[idx..],
                                     p.kids[..idx + 1] + [right] + p.kids[idx + 1..])];
      spans := spans[child := Span(spans[child].lo, sep)][right := Span(sep, spans[child].hi)];
      assert nodes == SplitStore(caps, s, parent, idx, right).nodes;
      assert nodes.Keys == s.nodes.Keys + {right};
      return Ok;
    }

    ghost predicate AllGranted(from: nat, to: nat) {
      forall i :: from <= i < to ==> grants(i) != 0
    }

    /** A first leaf for an empty tree. */
    method FirstLeaf() returns (e: Err)
      requires Valid() && rootOff == 0
      modifies `nodes, `spans, `rootOff, `calls
      ensures Valid() && calls == old(calls) + 1
      ensures e == if grants(old(calls)) != 0 then Ok else OutOfMemory
      ensures e == Ok ==> rootOff != 0
    {
      hide Holds, PagesApart, SupplyOk;
      Granted(nodes.Keys, grants, calls);
      var r := AllocNode();
      if r == 0 { return OutOfMemory; }
      SingleLeafHolds<V>(caps, r);
      nodes, rootOff := map[r := Leaf([], [], 0)], r;
      spans := map[r := Span(0, caps.keyMax)];
      assert nodes.Keys == {} + {r};
      return Ok;
    }

    /** A root above a full one, with the old root as its only child. */
    method GrowRoot() returns (e: Err)
      requires Valid() && rootOff != 0 && rootOff in nodes && |nodes[rootOff].keys| >= CapOf(caps, nodes[rootOff])
      modifies `nodes, `spans, `rootOff, `calls
      ensures Valid() && calls == old(calls) + 1
      ensures e == if grants(old(calls)) != 0 then Ok else OutOfMemory
      ensures e == Ok ==> rootOff != 0 && rootOff in nodes && |nodes[rootOff].keys| < CapOf(caps, nodes[rootOff])
    {
      hide Holds, PagesApart, SupplyOk;
      Granted(nodes.Keys, grants, calls);
      var root := rootOff;
      var r := AllocNode();
      if r == 0 { return OutOfMemory; }
      GrownHolds(caps, Image(), r, entries);
      ghost var used := nodes.Keys;
      nodes, rootOff := nodes[r := Inner(Level(nodes[root]) + 1, [], [root])], r;
      spans := spans[r := Span(0, caps.keyMax)];
      assert nodes.Keys == used + {r};
      return Ok;
    }

    /** Prepares a root with room. Neither step changes the content. */
    method EnsureRoot() returns (e: Err)
      requires Valid()
      modifies `nodes, `spans, `rootOff, `calls
      ensures Valid() && calls >= old(calls)
      ensures e == if AllGranted(old(calls), calls) then Ok else OutOfMemory
      ensures e == Ok ==> rootOff != 0 && rootOff in nodes && |nodes[rootOff].keys| < CapOf(caps, nodes[rootOff])
    {
      hide Valid, Holds, Tree, CapOf;
      if rootOff == 0 {
        e := FirstLeaf();
        if e != Ok { return; }
      }
      Basics();
      if |nodes[rootOff].keys| >= CapOf(caps, nodes[rootOff]) {
        e := GrowRoot();
        return;
      }
      e := Ok;
    }

    /** One step down: the child for the key, split first when it is full. */
    method Descend(cur: nat, key: nat) returns (e: Err, child: nat)
      requires Valid() && rootOff != 0 && cur in nodes && cur in spans && nodes[cur].Inner?
      requires Within(key, spans[cur]) && |nodes[cur].keys| < CapOf(caps, nodes[cur])
      modifies `nodes, `spans, `calls
      ensures Valid() && calls >= old(calls)
      ensures e == if AllGranted(old(calls), calls) then Ok else OutOfMemory
      ensures rootOff in old(nodes) && rootOff in nodes && Level(nodes[rootOff]) == Level(old(nodes)[rootOff])
      ensures e == Ok ==>
        && child in nodes && child in spans && Within(key, spans[child])
        && |nodes[child].keys| < CapOf(caps, nodes[child])
        && Level(nodes[child]) < Level(old(nodes)[cur])
    {
      hide Holds, Tree, PagesApart, SupplyOk, LeftHalf, RightHalf, NextOk, KidOk;
      HoldsTree(caps, Image(), entries);
      LeafIsOk(caps, Image(), cur);
      var hop := StrictUpper(nodes[cur].keys, key);
      child := nodes[cur].kids[hop];
      KidFacts(caps, Image(), cur, hop);
      RouteKid(caps, Image(), cur, key, hop);
      LeafIsOk(caps, Image(), child);
      if |nodes[child].keys| >= CapOf(caps, nodes[child]) {
        ghost var s := Image();
        e := SplitChild(cur, hop, child);
        if e != Ok { return; }
        ghost var right := grants(old(calls));
        HoldsTree(caps, Image(), entries);
        HalfKind(s.nodes[child], right);
        LeafIsOk(caps, Image(), cur);
        var again := StrictUpper(nodes[cur].keys, key);
        SplitRoute(caps, s, cur, hop, right, key, again);
        RouteKid(caps, Image(), cur, key, again);
        child := nodes[cur].kids[again];
      }
      e := Ok;
    }

    /** The leaf step of an insertion. */
    method PutInLeaf(cur: nat, key: nat, v: V) returns (e: Err)
      requires Valid() && rootOff != 0 && cur in nodes && cur in spans && nodes[cur].Leaf?
      requires Within(key, spans[cur]) && |nodes[cur].keys| < caps.leaf
      modifies `nodes, `count, `entries
      ensures Valid()
      ensures e == if key in old(entries) then AlreadyExists else Ok
      ensures entries == if key in old(entries) then old(entries) else old(entries)[key := v]
    {
      hide Holds, Tree, PagesApart, SupplyOk;
      HoldsTree(caps, Image(), entries);
      LeafIsOk(caps, Image(), cur);
      var n := nodes[cur];
      var pos := LowerBound(n.keys, key);
      LeafDecides(caps, Image(), cur, key, pos, entries);
      if pos < |n.keys| && n.keys[pos] == key { return AlreadyExists; }
      InsertHolds(caps, Image(), cur, pos, key, v, entries);
      assert nodes[cur := LeafInsert(n, pos, key, v)].Keys == nodes.Keys;
      nodes := nodes[cur := Leaf(n.keys[..pos] + [key] + n.keys[pos..], n.vals[..pos] + [v] + n.vals[pos..], n.next)];
      count := count + 1;
      entries := entries[key := v];
      return Ok;
    }

    method Insert(key: nat, v: V) returns (e: Err)
      requires Valid() && key < caps.keyMax
      modifies this
      ensures Valid() && calls >= old(calls)
      ensures e == OutOfMemory <==> !AllGranted(old(calls), calls)
      ensures e == Ok <==> key !in old(entries) && AllGranted(old(calls), calls)
      ensures e == AlreadyExists <==> key in old(entries) && AllGranted(old(calls), calls)
      ensures entries == if e == Ok then old(entries)[key := v] else old(entries)
    {
      hide NodeOk, PairApart, LeafHolds, PagesApart, SupplyOk;
      e := EnsureRoot();
      if e != Ok { return; }
      var cur := rootOff;
      var guard := 0;
      while true
        invariant Valid() && entries == old(entries) && rootOff != 0
        invariant calls >= old(calls) && AllGranted(old(calls), calls)
        invariant cur in nodes && cur in spans && Within(key, spans[cur])
        invariant |nodes[cur].keys| < CapOf(caps, nodes[cur])
        invariant rootOff in nodes && guard + Level(nodes[cur]) <= Level(nodes[rootOff])
        decreases Level(nodes[cur])
      {
        guard := guard + 1;
        DepthBound(caps, Image());
        if guard > 64 { return Internal; }
        if nodes[cur].Leaf? {
          e := PutInLeaf(cur, key, v);
          return;
        }
        e, cur := Descend(cur, key);
        if e != Ok { return; }
      }
    }

    /** Takes the entry out of its leaf; leaves are never merged. */
    method Remove(key: nat) returns (e: Err)
      requires Valid() && key < caps.keyMax
      modifies `nodes, `count, `entries
      ensures Valid()
      ensures e == if key in old(entries) then Ok else NotFound
      ensures entries == old(entries) - {key}
    {
      hide NodeOk, PairApart, LeafHolds, PagesApart, SupplyOk;
      if rootOff == 0 { return NotFound; }
      var off := rootOff;
      while true
        invariant off in nodes && off in spans && Within(key, spans[off])
        invariant Valid() && nodes == old(nodes) && entries == old(entries)
        decreases Level(nodes[off])
      {
        if nodes[off].Leaf? {
          e := TakeFromLeaf(off, key);
          return;
        }
        LeafIsOk(caps, Image(), off);
        var hop := StrictUpper(nodes[off].keys, key);
        RouteKid(caps, Image(), off, key, hop);
        off := nodes[off].kids[hop];
      }
    }

    /** The leaf step of a removal. */
    method TakeFromLeaf(off: nat, key: nat) returns (e: Err)
      requires Valid() && rootOff != 0 && off in nodes && off in spans && nodes[off].Leaf?
      requires Within(key, spans[off])
      modifies `nodes, `count, `entries
      ensures Valid()
      ensures e == if key in old(entries) then Ok else NotFound
      ensures entries == old(entries) - {key}
    {
      hide Holds, PagesApart, SupplyOk, Tree, NextOk;
      HoldsTree(caps, Image(), entries);
      LeafIsOk(caps, Image(), off);
      var n := nodes[off];
      var pos := LowerBound(n.keys, key);
      LeafDecides(caps, Image(), off, key, pos, entries);
      if !(pos < |n.keys| && n.keys[pos] == key) {
        assert entries - {key} == entries;
        return NotFound;
      }
      RemoveHolds(caps, Image(), off, pos, entries);
      assert nodes[off := LeafRemove(n, pos)].Keys == nodes.Keys;
      nodes := nodes[off := Leaf(n.keys[..pos] + n.keys[pos + 1..], n.vals[..pos] + n.vals[pos + 1..], n.next)];
      count := count - 1;
      assert (entries - {key}).Keys == entries.Keys - {key};
      entries := entries - {key};
      return Ok;
    }

    /** The cursor shows the least entry from `from` on and stands right on it. */
    ghost predicate Placed(c: Cursor<V>, from: nat)
      reads this, c
    {
      && Shows(entries, from, c.hi, c.hiIncl, c.valid, c.key, c.val)
      && (c.valid ==>
           (c.key < caps.keyMax && rootOff != 0 && CursorAt(Image(), entries, c.leaf, c.idx + 1, c.key + 1)))
    }

    /** Passes over exhausted and empty leaves, then tests the upper bound. */
    method LoadAndCheckHi(c: Cursor<V>, ghost from: nat)
      requires Valid() && rootOff != 0 && CursorAt(Image(), entries, c.leaf, c.idx, from)
      modifies c
      ensures Placed(c, from)
    {
      hide Valid, Holds, Tree, CursorAt, Least;
      Basics();
      AtLeaf(Image(), entries, c.leaf, c.idx, from);
      while true
        invariant CursorAt(Image(), entries, c.leaf, c.idx, from)
        invariant c.leaf in nodes && c.leaf in spans && nodes[c.leaf].Leaf?
          && |nodes[c.leaf].vals| == |nodes[c.leaf].keys|
        decreases caps.keyMax - spans[c.leaf].lo
      {
        var n := nodes[c.leaf];
        if |n.keys| <= c.idx {
          CursorSkips(caps, Image(), entries, c.leaf, c.idx, from);
          if n.next == 0 {
            c.valid := false;
            return;
          }
          AtLeaf(Image(), entries, n.next, 0, from);
          c.leaf, c.idx := n.next, 0;
          continue;
        }
        CursorReads(caps, Image(), entries, c.leaf, c.idx, from);
        PastHi(caps, Image(), entries, from, n.keys[c.idx], c.hi, c.hiIncl);
        c.key := n.keys[c.idx];
        if c.key > c.hi || (c.key == c.hi && !c.hiIncl) {
          c.valid := false;
          return;
        }
        c.val := Some(n.vals[c.idx]);
        c.valid := true;
        return;
      }
    }

    method SeekRange(lo: nat, loIncl: bool, hi: nat, hiIncl: bool) returns (c: Cursor<V>)
      requires Valid() && lo < caps.keyMax && hi < caps.keyMax
      ensures fresh(c) && c.hi == hi && c.hiIncl == hiIncl && Placed(c, LowKey(lo, loIncl))
    {
      hide NodeOk, PairApart, LeafHolds, PagesApart, SupplyOk;
      c := new Cursor(hi, hiIncl);
      if rootOff == 0 { return; }
      if lo > hi || (lo == hi && !(loIncl && hiIncl)) { return; }
      var off := rootOff;
      while true
        invariant off in nodes && off in spans && Within(lo, spans[off])
        invariant fresh(c) && c.hi == hi && c.hiIncl == hiIncl
        decreases Level(nodes[off])
      {
        var n := nodes[off];
        LeafIsOk(caps, Image(), off);
        if n.Leaf? {
          var pos := LowerBound(n.keys, lo);
          var up := StrictUpper(n.keys, lo);
          CursorStarts(caps, Image(), entries, off, if loIncl then pos else up, lo, LowKey(lo, loIncl));
          c.leaf, c.idx := off, if loIncl then pos else up;
          LoadAndCheckHi(c, LowKey(lo, loIncl));
          return;
        }
        var hop := StrictUpper(n.keys, lo);
        RouteKid(caps, Image(), off, lo, hop);
        off := n.kids[hop];
      }
    }

    /** One step of a valid cursor: to the least entry above the one it shows. */
    method Next(c: Cursor<V>, ghost from: nat)
      requires Valid() && Placed(c, from)
      modifies c
      ensures old(c.valid) ==> Placed(c, old(c.key) + 1)
      ensures !old(c.valid) ==> !c.valid
    {
      hide Holds, PagesOk, CursorAt;
      if !c.valid { return; }
      c.idx := c.idx + 1;
      LoadAndCheckHi(c, c.key + 1);
    }

    /** Driving a cursor to its end lists the interval. */
    method Enumerate(lo: nat, loIncl: bool, hi: nat, hiIncl: bool) returns (out: seq<(nat, V)>)
      requires Valid() && lo < caps.keyMax && hi < caps.keyMax
      ensures Listing(out, entries, LowKey(lo, loIncl), hi, hiIncl)
    {
      hide Valid, CursorAt;
      out := [];
      var c := SeekRange(lo, loIncl, hi, hiIncl);
      ghost var from: nat := LowKey(lo, loIncl);
      while c.valid
        invariant fresh(c) && c.hi == hi && c.hiIncl == hiIncl && Valid() && Placed(c, from)
        invariant LowKey(lo, loIncl) <= from
        invariant forall i :: 0 <= i < |out| ==> out[i].0 < from
        invariant Listed(out, entries, LowKey(lo, loIncl), from, hi, hiIncl)
        decreases c.valid, caps.keyMax - c.key
      {
        ListedNext(out, entries, LowKey(lo, loIncl), from, hi, hiIncl, c.key);
        out := out + [(c.key, c.val.value)];
        from := c.key + 1;
        Next(c, from - 1);
      }
      ListedAll(out, entries, LowKey(lo, loIncl), from, hi, hiIncl);
    }
  }
}
