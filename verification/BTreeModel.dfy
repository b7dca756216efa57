/** The shared B+ tree as values (src/infra/shared_btree.hpp): nodes by offset, as the image keeps
    them, and for the proof the span of keys each node stands for. Every condition is about one node
    and its neighbours, so that an update in place touches few of them. Keys are the numbers that
    fixed-length byte strings spell, which memcmp orders (see OrderedKey). */
module BTreeModel {

  datatype Node<V> =
    | Leaf(keys: seq<nat>, vals: seq<V>, next: nat)
    | Inner(level: nat, keys: seq<nat>, kids: seq<nat>)

  /** Half-open interval of keys. */
  datatype Span = Span(lo: nat, hi: nat)

  /** How many entries a node page holds, and the bound of the key space. */
  datatype Caps = Caps(leaf: nat, inner: nat, keyMax: nat)

  datatype Store<V> = Store(nodes: map<nat, Node<V>>, spans: map<nat, Span>, root: nat)

  predicate CapsOk(c: Caps) {
    c.leaf >= 4 && c.inner >= 4 && c.keyMax > 0
  }

  function Level<V>(n: Node<V>): nat {
    if n.Leaf? then 0 else n.level
  }

  function CapOf<V>(c: Caps, n: Node<V>): nat {
    if n.Leaf? then c.leaf else c.inner
  }

  predicate Within(k: nat, sp: Span) {
    sp.lo <= k < sp.hi
  }

  predicate Apart(a: Span, b: Span) {
    a.hi <= b.lo || b.hi <= a.lo
  }

  ghost predicate Ascending(keys: seq<nat>) {
    forall i, j :: 0 <= i < j < |keys| ==> keys[i] < keys[j]
  }

  function KidLo(keys: seq<nat>, sp: Span, i: nat): nat
    requires i <= |keys|
  {
    if i == 0 then sp.lo else keys[i - 1]
  }

  function KidHi(keys: seq<nat>, sp: Span, i: nat): nat
    requires i <= |keys|
  {
    if i == |keys| then sp.hi else keys[i]
  }

  /** Child i lies one level down and stands for the keys between its separators. */
  predicate KidOk<V>(s: Store<V>, n: Node<V>, sp: Span, i: nat)
    requires n.Inner? && i < |n.kids| == |n.keys| + 1
  {
    && n.kids[i] in s.nodes && n.kids[i] in s.spans
    && Level(s.nodes[n.kids[i]]) + 1 == n.level
    && s.spans[n.kids[i]] == Span(KidLo(n.keys, sp, i), KidHi(n.keys, sp, i))
  }

  /** The leaf chain: the next leaf begins where this one ends. */
  predicate NextOk<V>(c: Caps, s: Store<V>, n: Node<V>, sp: Span)
    requires n.Leaf?
  {
    if sp.hi == c.keyMax then n.next == 0
    else n.next in s.nodes && n.next in s.spans && n.next != 0 && s.nodes[n.next].Leaf? && s.spans[n.next].lo == sp.hi
  }

  ghost predicate NodeOk<V>(c: Caps, s: Store<V>, o: nat)
    requires o in s.nodes && o in s.spans
  {
    var n := s.nodes[o];
    var sp := s.spans[o];
    && sp.lo < sp.hi <= c.keyMax
    && Ascending(n.keys) && |n.keys| <= CapOf(c, n)
    && match n
       case Leaf(keys, vals, next) =>
         && |vals| == |keys|
         && (forall i :: 0 <= i < |keys| ==> Within(keys[i], sp))
         && NextOk(c, s, n, sp)
       case Inner(level, keys, kids) =>
         && level >= 1 && |kids| == |keys| + 1
         && (o != s.root ==> |keys| >= 1)
         && (forall i :: 0 <= i < |keys| ==> sp.lo < keys[i] < sp.hi)
         && (forall i :: 0 <= i < |kids| ==> KidOk(s, n, sp, i))
  }

  ghost predicate PairApart<V>(s: Store<V>, a: nat, b: nat)
    requires a in s.nodes && b in s.nodes && s.spans.Keys == s.nodes.Keys
  {
    a != b && Level(s.nodes[a]) == Level(s.nodes[b]) ==> Apart(s.spans[a], s.spans[b])
  }

  /** A tree with a root. */
  ghost predicate Tree<V>(c: Caps, s: Store<V>) {
    && s.spans.Keys == s.nodes.Keys && 0 !in s.nodes
    && s.root in s.nodes && s.spans[s.root] == Span(0, c.keyMax)
    && (forall o :: o in s.nodes ==> NodeOk(c, s, o))
    && (forall o :: o in s.nodes ==> Level(s.nodes[o]) <= Level(s.nodes[s.root]))
    && (forall a, b :: a in s.nodes && b in s.nodes ==> PairApart(s, a, b))
  }

  ghost function At(keys: seq<nat>, k: nat): (i: nat)
    requires k in keys
    ensures i < |keys| && keys[i] == k
  {
    var i :| 0 <= i < |keys| && keys[i] == k;
    i
  }

  /** A leaf holds exactly the part of the map that lies in its span. */
  ghost predicate LeafHolds<V>(n: Node<V>, sp: Span, m: map<nat, V>)
    requires n.Leaf?
  {
    && |n.vals| == |n.keys|
    && (forall i :: 0 <= i < |n.keys| ==> n.keys[i] in m && m[n.keys[i]] == n.vals[i])
    && (forall k :: k in m && Within(k, sp) ==> k in n.keys)
  }

  ghost predicate Holds<V>(c: Caps, s: Store<V>, m: map<nat, V>) {
    && Tree(c, s)
    && (forall k :: k in m ==> k < c.keyMax)
    && (forall o :: o in s.nodes && s.nodes[o].Leaf? ==> LeafHolds(s.nodes[o], s.spans[o], m))
  }

  // ---- splitting a full child ----

  function LeftHalf<V>(n: Node<V>, right: nat): Node<V>
    requires n.Leaf? ==> |n.vals| == |n.keys|
    requires n.Inner? ==> |n.kids| == |n.keys| + 1 && |n.keys| > 0
  {
    var h := |n.keys| / 2;
    match n
    case Leaf(keys, vals, _) => Leaf(keys[..h], vals[..h], right)
    case Inner(level, keys, kids) => Inner(level, keys[..h], kids[..h + 1])
  }

  function RightHalf<V>(n: Node<V>): Node<V>
    requires n.Leaf? ==> |n.vals| == |n.keys|
    requires n.Inner? ==> |n.kids| == |n.keys| + 1 && |n.keys| > 0
  {
    var h := |n.keys| / 2;
    match n
    case Leaf(keys, vals, next) => Leaf(keys[h..], vals[h..], next)
    case Inner(level, keys, kids) => Inner(level, keys[h + 1..], kids[h + 1..])
  }

  /** The key that goes up: the right leaf's first key, or the middle separator. */
  function Separator<V>(n: Node<V>): nat
    requires |n.keys| > 0
  {
    n.keys[|n.keys| / 2]
  }

  function WithKid<V>(p: Node<V>, idx: nat, sep: nat, right: nat): Node<V>
    requires p.Inner? && idx <= |p.keys| && |p.kids| == |p.keys| + 1
  {
    Inner(p.level, p.keys[..idx] + [sep] + p.keys[idx..], p.kids[..idx + 1] + [right] + p.kids[idx + 1..])
  }

  /** A full child under a parent with room for another. */
  predicate FullKid<V>(c: Caps, s: Store<V>, parent: nat, idx: nat) {
    && parent in s.nodes && s.nodes[parent].Inner? && |s.nodes[parent].keys| < c.inner
    && |s.nodes[parent].kids| == |s.nodes[parent].keys| + 1 && idx < |s.nodes[parent].kids|
    && var child := s.nodes[parent].kids[idx];
    && child in s.nodes && child in s.spans && |s.nodes[child].keys| == CapOf(c, s.nodes[child])
    && (s.nodes[child].Leaf? ==> |s.nodes[child].vals| == |s.nodes[child].keys|)
    && (s.nodes[child].Inner? ==> |s.nodes[child].kids| == |s.nodes[child].keys| + 1)
  }

  predicate Splittable<V>(c: Caps, s: Store<V>, parent: nat, idx: nat, right: nat) {
    FullKid(c, s, parent, idx) && right !in s.nodes && right != 0
  }

  ghost function SplitStore<V>(c: Caps, s: Store<V>, parent: nat, idx: nat, right: nat): Store<V>
    requires CapsOk(c) && Splittable(c, s, parent, idx, right)
  {
    var p := s.nodes[parent];
    var child := p.kids[idx];
    var n := s.nodes[child];
    var sep := Separator(n);
    s.(nodes := s.nodes[child := LeftHalf(n, right)][right := RightHalf(n)][parent := WithKid(p, idx, sep, right)],
       spans := s.spans[child := Span(s.spans[child].lo, sep)][right := Span(sep, s.spans[child].hi)])
  }

  lemma KidFacts<V>(c: Caps, s: Store<V>, o: nat, i: nat)
    requires Tree(c, s) && o in s.nodes && s.nodes[o].Inner? && i < |s.nodes[o].kids|
    ensures |s.nodes[o].kids| == |s.nodes[o].keys| + 1 && KidOk(s, s.nodes[o], s.spans[o], i)
    ensures var k := s.nodes[o].kids[i];
      && k in s.nodes && k != o && NodeOk(c, s, k)
      && s.spans[o].lo <= s.spans[k].lo < s.spans[k].hi <= s.spans[o].hi
  {
    assert NodeOk(c, s, o);
    assert KidOk(s, s.nodes[o], s.spans[o], i);
    assert NodeOk(c, s, s.nodes[o].kids[i]);
  }

  /** Following the child indices of a path from node o leads to node x. */
  ghost predicate Reaches<V>(s: Store<V>, o: nat, path: seq<nat>, x: nat)
    decreases |path|
  {
    && o in s.nodes
    && if path == [] then x == o
       else s.nodes[o].Inner? && path[0] < |s.nodes[o].kids| && Reaches(s, s.nodes[o].kids[path[0]], path[1..], x)
  }

  lemma {:induction false} ReachedInside<V>(c: Caps, s: Store<V>, o: nat, path: seq<nat>, x: nat)
    requires Tree(c, s) && Reaches(s, o, path, x)
    ensures x in s.nodes && s.spans[o].lo <= s.spans[x].lo && s.spans[x].hi <= s.spans[o].hi
    decreases |path|
  {
    hide NodeOk, PairApart;
    if path != [] {
      KidFacts(c, s, o, path[0]);
      ReachedInside(c, s, s.nodes[o].kids[path[0]], path[1..], x);
    }
  }

  /** Every key below a child left of separator i is smaller than it, every key to its right is not. */
  lemma SeparatorsSplit<V>(c: Caps, s: Store<V>, o: nat, i: nat, path: seq<nat>, x: nat, k: nat)
    requires Tree(c, s) && o in s.nodes && s.nodes[o].Inner? && i < |s.nodes[o].keys|
    requires path != [] && Reaches(s, o, path, x) && x in s.nodes && k in s.nodes[x].keys
    ensures path[0] <= i ==> k < s.nodes[o].keys[i]
    ensures path[0] > i ==> s.nodes[o].keys[i] <= k
  {
    hide NodeOk, PairApart;
    KidFacts(c, s, o, path[0]);
    ReachedInside(c, s, s.nodes[o].kids[path[0]], path[1..], x);
    LeafIsOk(c, s, x);
    LeafIsOk(c, s, o);
  }

  /** A node is the child of one node, at one place. */
  lemma OneParent<V>(c: Caps, s: Store<V>, a: nat, i: nat, b: nat, j: nat)
    requires Tree(c, s)
    requires a in s.nodes && s.nodes[a].Inner? && i < |s.nodes[a].kids|
    requires b in s.nodes && s.nodes[b].Inner? && j < |s.nodes[b].kids|
    requires s.nodes[a].kids[i] == s.nodes[b].kids[j]
    ensures a == b && i == j
  {
    KidFacts(c, s, a, i);
    KidFacts(c, s, b, j);
    assert PairApart(s, a, b);
    assert NodeOk(c, s, a);
    if a == b {
      KidsApart(s.nodes[a].keys, s.spans[a], i, j);
    }
  }

  lemma KidsApart(keys: seq<nat>, sp: Span, i: nat, j: nat)
    requires Ascending(keys) && i <= |keys| && j <= |keys|
    ensures i < j ==> KidHi(keys, sp, i) <= KidLo(keys, sp, j)
    ensures j < i ==> KidHi(keys, sp, j) <= KidLo(keys, sp, i)
  {
  }

  /** What the halves of a full node look like. */
  lemma HalfFacts<V>(c: Caps, s: Store<V>, child: nat, right: nat)
    requires CapsOk(c) && Tree(c, s) && child in s.nodes
    requires |s.nodes[child].keys| == CapOf(c, s.nodes[child])
    ensures var n := s.nodes[child]; var sp := s.spans[child]; var sep := Separator(n);
      && sp.lo < sep < sp.hi
      && Ascending(LeftHalf(n, right).keys) && Ascending(RightHalf(n).keys)
      && (forall k :: k in LeftHalf(n, right).keys ==> sp.lo <= k < sep)
      && (forall k :: k in RightHalf(n).keys ==> sep <= k < sp.hi)
      && (forall k :: k in LeftHalf(n, right).keys && n.Inner? ==> sp.lo < k)
      && (forall k :: k in RightHalf(n).keys && n.Inner? ==> sep < k)
      && 1 <= |LeftHalf(n, right).keys| && 1 <= |RightHalf(n).keys|
      && |LeftHalf(n, right).keys| < CapOf(c, n) && |RightHalf(n).keys| < CapOf(c, n)
  {
    assert NodeOk(c, s, child);
    var n := s.nodes[child];
    var h := |n.keys| / 2;
    assert forall i :: 0 <= i < h ==> n.keys[i] < n.keys[h];
    if n.Leaf? {
      assert n.keys[0] < n.keys[h];
    }
  }

  /** A child that the split does not touch stays where it was. */
  lemma KidKept<V>(s: Store<V>, t: Store<V>, n: Node<V>, sp: Span, i: nat, n': Node<V>, sp': Span, j: nat)
    requires n.Inner? && |n.kids| == |n.keys| + 1 && i < |n.kids| && KidOk(s, n, sp, i)
    requires n'.Inner? && |n'.kids| == |n'.keys| + 1 && j < |n'.kids|
    requires n'.kids[j] == n.kids[i] && n'.level == n.level
    requires var k := n.kids[i];
      k in t.nodes && k in t.spans && Level(t.nodes[k]) == Level(s.nodes[k]) && t.spans[k] == s.spans[k]
    requires KidLo(n'.keys, sp', j) == KidLo(n.keys, sp, i) && KidHi(n'.keys, sp', j) == KidHi(n.keys, sp, i)
    ensures KidOk(t, n', sp', j)
  {
  }

  lemma SplitLeftKid<V>(c: Caps, s: Store<V>, parent: nat, idx: nat, right: nat, i: nat)
    requires CapsOk(c) && Tree(c, s) && Splittable(c, s, parent, idx, right)
    requires var n := s.nodes[s.nodes[parent].kids[idx]]; n.Inner? && i < |LeftHalf(n, right).kids|
    ensures var t := SplitStore(c, s, parent, idx, right); var child := s.nodes[parent].kids[idx];
      |t.nodes[child].kids| == |t.nodes[child].keys| + 1 && KidOk(t, t.nodes[child], t.spans[child], i)
  {
    hide NodeOk, PairApart;
    var t := SplitStore(c, s, parent, idx, right);
    var child := s.nodes[parent].kids[idx];
    KidFacts(c, s, parent, idx);
    var n := s.nodes[child];
    KidFacts(c, s, child, i);
    assert t.nodes[child].kids[i] == n.kids[i];
    KidKept(s, t, n, s.spans[child], i, t.nodes[child], t.spans[child], i);
  }

  lemma SplitLeft<V>(c: Caps, s: Store<V>, parent: nat, idx: nat, right: nat)
    requires CapsOk(c) && Tree(c, s) && Splittable(c, s, parent, idx, right)
    ensures NodeOk(c, SplitStore(c, s, parent, idx, right), s.nodes[parent].kids[idx])
  {
    hide PairApart, Tree;
    var t := SplitStore(c, s, parent, idx, right);
    var child := s.nodes[parent].kids[idx];
    KidFacts(c, s, parent, idx);
    HalfFacts(c, s, child, right);
    TreeSpans(c, s);
    if s.nodes[child].Inner? {
      forall i | 0 <= i < |t.nodes[child].kids| ensures KidOk(t, t.nodes[child], t.spans[child], i) {
        SplitLeftKid(c, s, parent, idx, right, i);
      }
    }
  }

  lemma SplitRightKid<V>(c: Caps, s: Store<V>, parent: nat, idx: nat, right: nat, i: nat)
    requires CapsOk(c) && Tree(c, s) && Splittable(c, s, parent, idx, right)
    requires var n := s.nodes[s.nodes[parent].kids[idx]]; n.Inner? && i < |RightHalf(n).kids|
    ensures var t := SplitStore(c, s, parent, idx, right);
      |t.nodes[right].kids| == |t.nodes[right].keys| + 1 && KidOk(t, t.nodes[right], t.spans[right], i)
  {
    hide NodeOk, PairApart;
    var t := SplitStore(c, s, parent, idx, right);
    var child := s.nodes[parent].kids[idx];
    KidFacts(c, s, parent, idx);
    var n := s.nodes[child];
    var j := |n.keys| / 2 + 1 + i;
    KidFacts(c, s, child, j);
    assert t.nodes[right].kids[i] == n.kids[j];
    KidKept(s, t, n, s.spans[child], j, t.nodes[right], t.spans[right], i);
  }

  lemma SplitRight<V>(c: Caps, s: Store<V>, parent: nat, idx: nat, right: nat)
    requires CapsOk(c) && Tree(c, s) && Splittable(c, s, parent, idx, right)
    ensures NodeOk(c, SplitStore(c, s, parent, idx, right), right)
  {
    var t := SplitStore(c, s, parent, idx, right);
    var child := s.nodes[parent].kids[idx];
    KidFacts(c, s, parent, idx);
    HalfFacts(c, s, child, right);
    assert |t.nodes[right].keys| <= CapOf(c, t.nodes[right]);
    if s.nodes[child].Inner? {
      forall i | 0 <= i < |t.nodes[right].kids| ensures KidOk(t, t.nodes[right], t.spans[right], i) {
        SplitRightKid(c, s, parent, idx, right, i);
      }
    }
  }

  lemma SplitParentKid<V>(c: Caps, s: Store<V>, parent: nat, idx: nat, right: nat, i: nat)
    requires CapsOk(c) && Tree(c, s) && Splittable(c, s, parent, idx, right) && i <= |s.nodes[parent].kids|
    ensures var t := SplitStore(c, s, parent, idx, right); var p := t.nodes[parent];
      p.Inner? && |p.kids| == |p.keys| + 1 == |s.nodes[parent].kids| + 1 && KidOk(t, p, t.spans[parent], i)
  {
    hide NodeOk, PairApart;
    var t := SplitStore(c, s, parent, idx, right);
    var child := s.nodes[parent].kids[idx];
    KidFacts(c, s, parent, idx);
    var p := s.nodes[parent];
    var p' := t.nodes[parent];
    if i != idx && i != idx + 1 {
      var j := if i < idx then i else i - 1;
      KidFacts(c, s, parent, j);
      if p.kids[j] == child { OneParent(c, s, parent, j, parent, idx); }
      assert p'.kids[i] == p.kids[j];
      KidKept(s, t, p, s.spans[parent], j, p', t.spans[parent], i);
    }
  }

  lemma SplitParent<V>(c: Caps, s: Store<V>, parent: nat, idx: nat, right: nat)
    requires CapsOk(c) && Tree(c, s) && Splittable(c, s, parent, idx, right)
    ensures NodeOk(c, SplitStore(c, s, parent, idx, right), parent)
  {
    hide PairApart;
    var t := SplitStore(c, s, parent, idx, right);
    var child := s.nodes[parent].kids[idx];
    KidFacts(c, s, parent, idx);
    HalfFacts(c, s, child, right);
    assert NodeOk(c, s, parent);
    forall i | 0 <= i < |t.nodes[parent].kids| ensures KidOk(t, t.nodes[parent], t.spans[parent], i) {
      SplitParentKid(c, s, parent, idx, right, i);
    }
    var p := s.nodes[parent];
    var sep := Separator(s.nodes[child]);
    InsertAscending(p.keys, idx, sep, s.spans[parent]);
  }

  /** Inserting between its neighbours keeps a key sequence ascending. */
  lemma InsertAscending(keys: seq<nat>, i: nat, k: nat, sp: Span)
    requires Ascending(keys) && i <= |keys| && KidLo(keys, sp, i) <= k < KidHi(keys, sp, i)
    requires i > 0 ==> keys[i - 1] < k
    ensures Ascending(keys[..i] + [k] + keys[i..])
  {
  }

  lemma SplitOther<V>(c: Caps, s: Store<V>, parent: nat, idx: nat, right: nat, o: nat)
    requires CapsOk(c) && Tree(c, s) && Splittable(c, s, parent, idx, right)
    requires o in s.nodes && o != parent && o != s.nodes[parent].kids[idx]
    ensures NodeOk(c, SplitStore(c, s, parent, idx, right), o)
  {
    var t := SplitStore(c, s, parent, idx, right);
    var child := s.nodes[parent].kids[idx];
    KidFacts(c, s, parent, idx);
    assert NodeOk(c, s, o);
    var n := s.nodes[o];
    if n.Inner? {
      forall i | 0 <= i < |n.kids| ensures KidOk(t, n, s.spans[o], i) {
        KidFacts(c, s, o, i);
        if n.kids[i] == child { OneParent(c, s, o, i, parent, idx); }
        KidKept(s, t, n, s.spans[o], i, n, s.spans[o], i);
      }
    }
  }

  lemma SplitPairs<V>(c: Caps, s: Store<V>, parent: nat, idx: nat, right: nat, a: nat, b: nat)
    requires CapsOk(c) && Tree(c, s) && Splittable(c, s, parent, idx, right)
    ensures var t := SplitStore(c, s, parent, idx, right);
      t.spans.Keys == t.nodes.Keys && (a in t.nodes && b in t.nodes ==> PairApart(t, a, b))
  {
    hide NodeOk, KidOk;
    var child := s.nodes[parent].kids[idx];
    KidFacts(c, s, parent, idx);
    HalfFacts(c, s, child, right);
    var a0 := if a == right then child else a;
    var b0 := if b == right then child else b;
    if a0 in s.nodes && b0 in s.nodes {
      assert PairApart(s, a0, b0);
    }
  }

  /** A split keeps the tree. */
  lemma SplitTree<V>(c: Caps, s: Store<V>, parent: nat, idx: nat, right: nat)
    requires CapsOk(c) && Tree(c, s) && Splittable(c, s, parent, idx, right)
    ensures Tree(c, SplitStore(c, s, parent, idx, right))
  {
    hide NodeOk, PairApart;
    var t := SplitStore(c, s, parent, idx, right);
    var child := s.nodes[parent].kids[idx];
    KidFacts(c, s, parent, idx);
    SplitPairs(c, s, parent, idx, right, 0, 0);
    forall o | o in t.nodes ensures NodeOk(c, t, o) {
      if o == child { SplitLeft(c, s, parent, idx, right); }
      else if o == right { SplitRight(c, s, parent, idx, right); }
      else if o == parent { SplitParent(c, s, parent, idx, right); }
      else { SplitOther(c, s, parent, idx, right, o); }
    }
    forall a, b | a in t.nodes && b in t.nodes ensures PairApart(t, a, b) {
      SplitPairs(c, s, parent, idx, right, a, b);
    }
  }

  /** The halves of a leaf hold the two parts of what it held. */
  lemma HalvesHold<V>(n: Node<V>, sp: Span, m: map<nat, V>, right: nat)
    requires n.Leaf? && LeafHolds(n, sp, m) && Ascending(n.keys) && |n.keys| >= 2
    requires sp.lo < Separator(n) < sp.hi
    ensures LeafHolds(LeftHalf(n, right), Span(sp.lo, Separator(n)), m)
    ensures LeafHolds(RightHalf(n), Span(Separator(n), sp.hi), m)
  {
    var h := |n.keys| / 2;
    var l, r := LeftHalf(n, right), RightHalf(n);
    forall k | k in m && Within(k, sp) ensures if k < n.keys[h] then k in l.keys else k in r.keys {
      var i := At(n.keys, k);
      if i < h {
        assert l.keys[i] == k;
      } else {
        assert r.keys[i - h] == k;
      }
    }
  }

  /** A split keeps the map. */
  lemma SplitHolds<V>(c: Caps, s: Store<V>, parent: nat, idx: nat, right: nat, m: map<nat, V>)
    requires CapsOk(c) && Holds(c, s, m) && Splittable(c, s, parent, idx, right)
    ensures Holds(c, SplitStore(c, s, parent, idx, right), m)
  {
    hide NodeOk, PairApart, LeafHolds, LeftHalf, RightHalf;
    var t := SplitStore(c, s, parent, idx, right);
    var child := s.nodes[parent].kids[idx];
    SplitTree(c, s, parent, idx, right);
    HalfFacts(c, s, child, right);
    LeafIsOk(c, s, child);
    if s.nodes[child].Leaf? {
      HalvesHold(s.nodes[child], s.spans[child], m, right);
    } else {
      HalvesInner(s.nodes[child], right);
    }
  }

  lemma HalvesInner<V>(n: Node<V>, right: nat)
    requires n.Inner? && |n.kids| == |n.keys| + 1 && |n.keys| > 0
    ensures LeftHalf(n, right).Inner? && RightHalf(n).Inner?
  {
  }

  lemma LeafIsOk<V>(c: Caps, s: Store<V>, o: nat)
    requires Tree(c, s) && o in s.nodes
    ensures Ascending(s.nodes[o].keys) && s.spans[o].lo < s.spans[o].hi <= c.keyMax
    ensures |s.nodes[o].keys| <= CapOf(c, s.nodes[o])
    ensures forall i :: 0 <= i < |s.nodes[o].keys| ==> Within(s.nodes[o].keys[i], s.spans[o])
    ensures s.nodes[o].Leaf? ==> |s.nodes[o].vals| == |s.nodes[o].keys| && NextOk(c, s, s.nodes[o], s.spans[o])
    ensures s.nodes[o].Inner? ==> |s.nodes[o].kids| == |s.nodes[o].keys| + 1
  {
    assert NodeOk(c, s, o);
  }

  // ---- a new tree, a new root ----

  ghost function SingleLeaf<V>(c: Caps, o: nat): Store<V> {
    Store(map[o := Leaf([], [], 0)], map[o := Span(0, c.keyMax)], o)
  }

  lemma SingleLeafHolds<V>(c: Caps, o: nat)
    requires CapsOk(c) && o != 0
    ensures Holds(c, SingleLeaf<V>(c, o), map[])
  {
    var s := SingleLeaf<V>(c, o);
    assert NodeOk(c, s, o);
  }

  ghost function Grown<V>(c: Caps, s: Store<V>, o: nat): Store<V>
    requires s.root in s.nodes
  {
    Store(s.nodes[o := Inner(Level(s.nodes[s.root]) + 1, [], [s.root])], s.spans[o := Span(0, c.keyMax)], o)
  }

  lemma GrownNode<V>(c: Caps, s: Store<V>, o: nat, x: nat)
    requires CapsOk(c) && Tree(c, s) && o != 0 && o !in s.nodes && |s.nodes[s.root].keys| >= 1
    requires x in s.nodes
    ensures NodeOk(c, Grown(c, s, o), x)
  {
    hide PairApart;
    var t := Grown(c, s, o);
    assert NodeOk(c, s, x);
    if s.nodes[x].Inner? {
      forall i | 0 <= i < |s.nodes[x].kids| ensures KidOk(t, t.nodes[x], t.spans[x], i) {
        assert KidOk(s, s.nodes[x], s.spans[x], i);
      }
    }
  }

  lemma GrownRoot<V>(c: Caps, s: Store<V>, o: nat)
    requires CapsOk(c) && Tree(c, s) && o != 0 && o !in s.nodes
    ensures NodeOk(c, Grown(c, s, o), o)
  {
    hide PairApart;
    var t := Grown(c, s, o);
    assert KidOk(t, t.nodes[o], t.spans[o], 0);
  }

  lemma GrownTree<V>(c: Caps, s: Store<V>, o: nat)
    requires CapsOk(c) && Tree(c, s) && o != 0 && o !in s.nodes && |s.nodes[s.root].keys| >= 1
    ensures Tree(c, Grown(c, s, o))
  {
    hide NodeOk;
    var t := Grown(c, s, o);
    GrownRoot(c, s, o);
    forall x | x in t.nodes ensures NodeOk(c, t, x) {
      if x != o {
        GrownNode(c, s, o, x);
      }
    }
    forall a, b | a in t.nodes && b in t.nodes ensures PairApart(t, a, b) {
      if a in s.nodes && b in s.nodes {
        assert PairApart(s, a, b);
      }
    }
  }

  /** Putting a root with one child above a full root changes no content. */
  lemma GrownHolds<V>(c: Caps, s: Store<V>, o: nat, m: map<nat, V>)
    requires CapsOk(c) && Holds(c, s, m) && o != 0 && o !in s.nodes
    requires |s.nodes[s.root].keys| >= 1
    ensures Holds(c, Grown(c, s, o), m)
  {
    hide Tree, LeafHolds;
    GrownTree(c, s, o);
    TreeSpans(c, s);
  }

  lemma TreeSpans<V>(c: Caps, s: Store<V>)
    requires Tree(c, s)
    ensures s.spans.Keys == s.nodes.Keys && s.root in s.nodes && 0 !in s.nodes
    ensures s.spans[s.root] == Span(0, c.keyMax)
  {
  }

  lemma HoldsTree<V>(c: Caps, s: Store<V>, m: map<nat, V>)
    requires Holds(c, s, m)
    ensures Tree(c, s) && s.spans.Keys == s.nodes.Keys && s.root in s.nodes && 0 !in s.nodes
    ensures s.spans[s.root] == Span(0, c.keyMax)
  {
    hide NodeOk, PairApart, LeafHolds;
  }

  // ---- rewriting one leaf ----

  ghost function WithNode<V>(s: Store<V>, o: nat, n: Node<V>): Store<V> {
    s.(nodes := s.nodes[o := n])
  }

  predicate SameChain<V>(n: Node<V>, n': Node<V>) {
    n.Leaf? && n'.Leaf? && n'.next == n.next
  }

  lemma LeafTreeNode<V>(c: Caps, s: Store<V>, o: nat, n: Node<V>, x: nat)
    requires Tree(c, s) && o in s.nodes && SameChain(s.nodes[o], n) && x in s.nodes
    requires Ascending(n.keys) && |n.vals| == |n.keys| <= c.leaf
    requires forall i :: 0 <= i < |n.keys| ==> Within(n.keys[i], s.spans[o])
    ensures NodeOk(c, WithNode(s, o, n), x)
  {
    hide PairApart;
    var t := WithNode(s, o, n);
    assert NodeOk(c, s, x);
    if t.nodes[x].Inner? {
      forall i | 0 <= i < |s.nodes[x].kids| ensures KidOk(t, t.nodes[x], t.spans[x], i) {
        assert KidOk(s, s.nodes[x], s.spans[x], i);
      }
    }
  }

  lemma LeafTree<V>(c: Caps, s: Store<V>, o: nat, n: Node<V>)
    requires Tree(c, s) && o in s.nodes && SameChain(s.nodes[o], n)
    requires Ascending(n.keys) && |n.vals| == |n.keys| <= c.leaf
    requires forall i :: 0 <= i < |n.keys| ==> Within(n.keys[i], s.spans[o])
    ensures Tree(c, WithNode(s, o, n))
  {
    hide NodeOk;
    var t := WithNode(s, o, n);
    forall x | x in t.nodes ensures NodeOk(c, t, x) {
      LeafTreeNode(c, s, o, n, x);
    }
    forall a, b | a in t.nodes && b in t.nodes ensures PairApart(t, a, b) {
      assert PairApart(s, a, b);
    }
  }

  /** Rewriting a leaf rewrites the map on that leaf's span only. */
  lemma LeafRewrite<V>(c: Caps, s: Store<V>, o: nat, n: Node<V>, m: map<nat, V>, m': map<nat, V>)
    requires Holds(c, s, m) && o in s.nodes && SameChain(s.nodes[o], n)
    requires Ascending(n.keys) && |n.vals| == |n.keys| <= c.leaf
    requires forall i :: 0 <= i < |n.keys| ==> Within(n.keys[i], s.spans[o])
    requires LeafHolds(n, s.spans[o], m')
    requires forall k :: !Within(k, s.spans[o]) ==> (k in m' <==> k in m) && (k in m ==> m'[k] == m[k])
    requires forall k :: k in m' ==> k < c.keyMax
    ensures Holds(c, WithNode(s, o, n), m')
  {
    hide NodeOk;
    LeafTree(c, s, o, n);
    var t := WithNode(s, o, n);
    forall x | x in t.nodes && t.nodes[x].Leaf? ensures LeafHolds(t.nodes[x], t.spans[x], m') {
      if x != o {
        assert PairApart(s, o, x);
        LeafIsOk(c, s, x);
        assert LeafHolds(s.nodes[x], s.spans[x], m);
      }
    }
  }

  function LeafInsert<V>(n: Node<V>, pos: nat, k: nat, v: V): Node<V>
    requires n.Leaf? && pos <= |n.keys| == |n.vals|
  {
    Leaf(n.keys[..pos] + [k] + n.keys[pos..], n.vals[..pos] + [v] + n.vals[pos..], n.next)
  }

  function LeafRemove<V>(n: Node<V>, pos: nat): Node<V>
    requires n.Leaf? && pos < |n.keys| == |n.vals|
  {
    Leaf(n.keys[..pos] + n.keys[pos + 1..], n.vals[..pos] + n.vals[pos + 1..], n.next)
  }

  /** Position of the first key not below k. */
  predicate IsLowerBound(keys: seq<nat>, k: nat, pos: nat) {
    && pos <= |keys|
    && (forall i :: 0 <= i < pos ==> keys[i] < k)
    && (forall i :: pos <= i < |keys| ==> k <= keys[i])
  }

  /** Position of the first key above k. */
  predicate IsStrictUpper(keys: seq<nat>, k: nat, pos: nat) {
    && pos <= |keys|
    && (forall i :: 0 <= i < pos ==> keys[i] <= k)
    && (forall i :: pos <= i < |keys| ==> k < keys[i])
  }

  /** What is at the lower bound decides membership. */
  lemma LowerBoundDecides(keys: seq<nat>, k: nat, pos: nat)
    requires Ascending(keys) && IsLowerBound(keys, k, pos)
    ensures k in keys <==> pos < |keys| && keys[pos] == k
  {
    if k in keys {
      var i := At(keys, k);
      assert pos < |keys| && keys[pos] <= keys[i] == k;
    }
  }

  lemma InsertedKeys(keys: seq<nat>, pos: nat, k: nat, x: nat)
    requires pos <= |keys| && x in keys
    ensures x in keys[..pos] + [k] + keys[pos..]
  {
    var i := At(keys, x);
    assert (keys[..pos] + [k] + keys[pos..])[if i < pos then i else i + 1] == x;
  }

  lemma LeafInserts<V>(n: Node<V>, sp: Span, pos: nat, k: nat, v: V, m: map<nat, V>)
    requires n.Leaf? && LeafHolds(n, sp, m) && Ascending(n.keys) && Within(k, sp)
    requires IsLowerBound(n.keys, k, pos) && (pos < |n.keys| ==> n.keys[pos] != k)
    ensures k !in m
    ensures Ascending(LeafInsert(n, pos, k, v).keys) && LeafHolds(LeafInsert(n, pos, k, v), sp, m[k := v])
  {
    LowerBoundDecides(n.keys, k, pos);
    assert k !in n.keys;
    var n' := LeafInsert(n, pos, k, v);
    assert n'.keys[pos] == k;
    forall x | x in m[k := v] && Within(x, sp) ensures x in n'.keys {
      if x != k {
        InsertedKeys(n.keys, pos, k, x);
      }
    }
  }

  lemma LeafRemoves<V>(n: Node<V>, sp: Span, pos: nat, m: map<nat, V>)
    requires n.Leaf? && LeafHolds(n, sp, m) && Ascending(n.keys) && pos < |n.keys|
    ensures n.keys[pos] in m
    ensures Ascending(LeafRemove(n, pos).keys) && LeafHolds(LeafRemove(n, pos), sp, m - {n.keys[pos]})
  {
    var n' := LeafRemove(n, pos);
    forall x | x in m - {n.keys[pos]} && Within(x, sp) ensures x in n'.keys {
      var i := At(n.keys, x);
      assert n'.keys[if i < pos then i else i - 1] == x;
    }
  }

  lemma InsertHolds<V>(c: Caps, s: Store<V>, o: nat, pos: nat, k: nat, v: V, m: map<nat, V>)
    requires Holds(c, s, m) && o in s.nodes && s.nodes[o].Leaf? && |s.nodes[o].vals| == |s.nodes[o].keys| < c.leaf
    requires o in s.spans && Within(k, s.spans[o]) && IsLowerBound(s.nodes[o].keys, k, pos)
    requires pos < |s.nodes[o].keys| ==> s.nodes[o].keys[pos] != k
    ensures k !in m
    ensures Holds(c, WithNode(s, o, LeafInsert(s.nodes[o], pos, k, v)), m[k := v])
  {
    hide NodeOk, PairApart, LeafHolds;
    LeafIsOk(c, s, o);
    LeafInserts(s.nodes[o], s.spans[o], pos, k, v, m);
    LeafRewrite(c, s, o, LeafInsert(s.nodes[o], pos, k, v), m, m[k := v]);
  }

  lemma RemoveHolds<V>(c: Caps, s: Store<V>, o: nat, pos: nat, m: map<nat, V>)
    requires Holds(c, s, m) && o in s.nodes && s.nodes[o].Leaf?
    requires |s.nodes[o].vals| == |s.nodes[o].keys| && pos < |s.nodes[o].keys|
    ensures s.nodes[o].keys[pos] in m
    ensures Holds(c, WithNode(s, o, LeafRemove(s.nodes[o], pos)), m - {s.nodes[o].keys[pos]})
  {
    hide NodeOk, PairApart, LeafHolds;
    LeafIsOk(c, s, o);
    LeafRemoves(s.nodes[o], s.spans[o], pos, m);
    LeafRewrite(c, s, o, LeafRemove(s.nodes[o], pos), m, m - {s.nodes[o].keys[pos]});
  }

  // ---- descending ----

  /** The child behind the last separator not above k stands for k. */
  lemma RouteKid<V>(c: Caps, s: Store<V>, o: nat, k: nat, i: nat)
    requires Tree(c, s) && o in s.nodes && s.nodes[o].Inner? && Within(k, s.spans[o])
    requires IsStrictUpper(s.nodes[o].keys, k, i)
    ensures i < |s.nodes[o].kids| && s.nodes[o].kids[i] in s.nodes && s.nodes[o].kids[i] in s.spans
    ensures Within(k, s.spans[s.nodes[o].kids[i]])
    ensures Level(s.nodes[s.nodes[o].kids[i]]) < Level(s.nodes[o])
  {
    assert NodeOk(c, s, o);
    assert KidOk(s, s.nodes[o], s.spans[o], i);
  }

  /** A leaf answers for its span: what is at the lower bound decides membership. */
  lemma LeafDecides<V>(c: Caps, s: Store<V>, o: nat, k: nat, pos: nat, m: map<nat, V>)
    requires Holds(c, s, m) && o in s.nodes && s.nodes[o].Leaf? && Within(k, s.spans[o])
    requires IsLowerBound(s.nodes[o].keys, k, pos)
    ensures |s.nodes[o].vals| == |s.nodes[o].keys|
    ensures k in m <==> pos < |s.nodes[o].keys| && s.nodes[o].keys[pos] == k
    ensures k in m ==> m[k] == s.nodes[o].vals[pos]
  {
    hide NodeOk, PairApart;
    LeafIsOk(c, s, o);
    assert LeafHolds(s.nodes[o], s.spans[o], m);
    LowerBoundDecides(s.nodes[o].keys, k, pos);
  }

  /** After a split the child that k belongs to is one of the halves, which have room. */
  lemma SplitRoute<V>(c: Caps, s: Store<V>, parent: nat, idx: nat, right: nat, k: nat, pos: nat)
    requires CapsOk(c) && Tree(c, s) && Splittable(c, s, parent, idx, right)
    requires IsStrictUpper(s.nodes[parent].keys, k, idx)
    requires IsStrictUpper(SplitStore(c, s, parent, idx, right).nodes[parent].keys, k, pos)
    ensures var t := SplitStore(c, s, parent, idx, right);
      && pos < |t.nodes[parent].kids| && t.nodes[parent].kids[pos] in t.nodes
      && |t.nodes[t.nodes[parent].kids[pos]].keys| < CapOf(c, t.nodes[t.nodes[parent].kids[pos]])
  {
    hide NodeOk, PairApart, Tree, LeftHalf, RightHalf;
    var t := SplitStore(c, s, parent, idx, right);
    var p, p' := s.nodes[parent], t.nodes[parent];
    var child := p.kids[idx];
    KidFacts(c, s, parent, idx);
    HalfFacts(c, s, child, right);
    HalfKind(s.nodes[child], right);
    var sep := Separator(s.nodes[child]);
    assert p'.keys[idx] == sep && p'.kids[idx] == child && p'.kids[idx + 1] == right;
    assert forall i :: idx < i < |p'.keys| ==> p'.keys[i] == p.keys[i - 1] && k < p'.keys[i];
    assert forall i :: 0 <= i < idx ==> p'.keys[i] == p.keys[i] && p'.keys[i] <= k;
    UpperUnique(p'.keys, k, pos, if k < sep then idx else idx + 1);
  }

  lemma UpperUnique(keys: seq<nat>, k: nat, a: nat, b: nat)
    requires IsStrictUpper(keys, k, a) && IsStrictUpper(keys, k, b)
    ensures a == b
  {
    assert a < |keys| ==> k < keys[a];
    assert b < |keys| ==> k < keys[b];
  }

  lemma HalfKind<V>(n: Node<V>, right: nat)
    requires n.Leaf? ==> |n.vals| == |n.keys|
    requires n.Inner? ==> |n.kids| == |n.keys| + 1 && |n.keys| > 0
    ensures LeftHalf(n, right).Leaf? <==> n.Leaf?
    ensures RightHalf(n).Leaf? <==> n.Leaf?
    ensures Level(LeftHalf(n, right)) == Level(n) == Level(RightHalf(n))
  {
  }

  // ---- walking the leaf chain ----

  /** A cursor stands before position idx of leaf o; everything from key `from` on is ahead of it. */
  ghost predicate CursorAt<V>(s: Store<V>, m: map<nat, V>, o: nat, idx: nat, from: nat) {
    && o in s.nodes && o in s.spans && s.nodes[o].Leaf? && |s.nodes[o].vals| == |s.nodes[o].keys|
    && IsLowerBound(s.nodes[o].keys, from, idx) && from <= s.spans[o].hi
    && (forall k :: k in m && from <= k ==> s.spans[o].lo <= k)
  }

  ghost predicate Least<V>(m: map<nat, V>, from: nat, key: nat) {
    key in m && from <= key && forall k :: k in m && from <= k ==> key <= k
  }

  lemma AtLeaf<V>(s: Store<V>, m: map<nat, V>, o: nat, idx: nat, from: nat)
    requires CursorAt(s, m, o, idx, from)
    ensures o in s.nodes && o in s.spans && s.nodes[o].Leaf? && idx <= |s.nodes[o].keys| == |s.nodes[o].vals|
  {
  }

  lemma CursorStarts<V>(c: Caps, s: Store<V>, m: map<nat, V>, o: nat, idx: nat, lo: nat, from: nat)
    requires Holds(c, s, m) && o in s.nodes && s.nodes[o].Leaf? && Within(lo, s.spans[o])
    requires lo <= from <= lo + 1 && IsLowerBound(s.nodes[o].keys, from, idx)
    ensures CursorAt(s, m, o, idx, from)
  {
    hide NodeOk, PairApart, LeafHolds;
    LeafIsOk(c, s, o);
  }

  lemma CursorReads<V>(c: Caps, s: Store<V>, m: map<nat, V>, o: nat, idx: nat, from: nat)
    requires Holds(c, s, m) && CursorAt(s, m, o, idx, from) && idx < |s.nodes[o].keys|
    ensures Least(m, from, s.nodes[o].keys[idx]) && m[s.nodes[o].keys[idx]] == s.nodes[o].vals[idx]
    ensures CursorAt(s, m, o, idx + 1, s.nodes[o].keys[idx] + 1)
  {
    hide NodeOk, PairApart, NextOk, LeafHolds;
    LeafIsOk(c, s, o);
    LeafReads(s.nodes[o], s.spans[o], m, idx, from);
  }

  lemma LeafReads<V>(n: Node<V>, sp: Span, m: map<nat, V>, idx: nat, from: nat)
    requires n.Leaf? && LeafHolds(n, sp, m) && Ascending(n.keys) && IsLowerBound(n.keys, from, idx)
    requires forall i :: 0 <= i < |n.keys| ==> Within(n.keys[i], sp)
    requires idx < |n.keys| && (forall k :: k in m && from <= k ==> sp.lo <= k)
    ensures Least(m, from, n.keys[idx]) && m[n.keys[idx]] == n.vals[idx]
    ensures IsLowerBound(n.keys, n.keys[idx] + 1, idx + 1)
    ensures forall k :: k in m && n.keys[idx] + 1 <= k ==> sp.lo <= k
  {
    var key := n.keys[idx];
    assert Within(key, sp);
    forall k | k in m && from <= k ensures key <= k {
      if Within(k, sp) {
        var i := At(n.keys, k);
        assert idx <= i;
      }
    }
  }

  lemma CursorSkips<V>(c: Caps, s: Store<V>, m: map<nat, V>, o: nat, idx: nat, from: nat)
    requires Holds(c, s, m) && CursorAt(s, m, o, idx, from) && |s.nodes[o].keys| <= idx
    ensures s.nodes[o].next == 0 ==> forall k :: k in m ==> k < from
    ensures s.nodes[o].next != 0 ==> CursorAt(s, m, s.nodes[o].next, 0, from)
    ensures s.nodes[o].next != 0 ==> s.spans[o].lo < s.spans[s.nodes[o].next].lo < c.keyMax
  {
    hide NodeOk, PairApart, LeafHolds;
    LeafIsOk(c, s, o);
    var n := s.nodes[o];
    assert LeafHolds(n, s.spans[o], m);
    forall k | k in m && Within(k, s.spans[o]) ensures k < from {
      NotAhead(n, s.spans[o], m, from, idx, k);
    }
    if n.next != 0 {
      LeafIsOk(c, s, n.next);
      NextStarts(c, s, m, o, n.next, from);
    }
  }

  lemma NextStarts<V>(c: Caps, s: Store<V>, m: map<nat, V>, o: nat, q: nat, from: nat)
    requires o in s.nodes && o in s.spans && s.nodes[o].Leaf? && NextOk(c, s, s.nodes[o], s.spans[o])
    requires s.spans[o].hi != c.keyMax && q == s.nodes[o].next
    requires |s.nodes[q].vals| == |s.nodes[q].keys|
    requires forall k :: k in m && from <= k ==> s.spans[o].hi <= k
    requires from <= s.spans[o].hi <= s.spans[q].hi
    requires forall i :: 0 <= i < |s.nodes[q].keys| ==> Within(s.nodes[q].keys[i], s.spans[q])
    ensures CursorAt(s, m, q, 0, from)
  {
  }

  lemma NotAhead<V>(n: Node<V>, sp: Span, m: map<nat, V>, from: nat, idx: nat, k: nat)
    requires n.Leaf? && LeafHolds(n, sp, m) && IsLowerBound(n.keys, from, idx) && |n.keys| <= idx
    requires k in m && Within(k, sp)
    ensures k < from
  {
    assert n.keys[At(n.keys, k)] < from;
  }
}
