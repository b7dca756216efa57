/** How deep the tree can get: inner nodes below the root keep at least two children, and every node
    occupies a page of its own in a 64-bit offset space. */
module BTreeDepth {
  import opened BTreeModel

  const PAGE: nat := 4096
  const OFFSET_LIMIT: nat := 0x1_0000_0000_0000_0000
  const MAX_PAGES: nat := 0x10_0000_0000_0000

  predicate Clear(a: nat, b: nat) {
    a + PAGE <= b || b + PAGE <= a
  }

  /** Pages that do not overlap. */
  ghost predicate PagesApart(used: set<nat>) {
    && (forall a :: a in used ==> 0 < a < OFFSET_LIMIT)
    && (forall a, b :: a in used && b in used && a != b ==> Clear(a, b))
  }

  lemma {:induction false} PagesBound(used: set<nat>, n: nat)
    requires forall a, b :: a in used && b in used && a != b ==> Clear(a, b)
    requires forall a :: a in used ==> a < n * PAGE
    ensures |used| <= n
  {
    if n == 0 {
      assert used == {};
    } else if x :| x in used && x >= (n - 1) * PAGE {
      forall a | a in used - {x} ensures a < (n - 1) * PAGE {
        assert Clear(a, x);
      }
      PagesBound(used - {x}, n - 1);
    } else {
      PagesBound(used, n - 1);
    }
  }

  function Pow2(n: nat): (r: nat)
    ensures r >= 1
  {
    if n == 0 then 1 else 2 * Pow2(n - 1)
  }

  lemma {:induction false} Pow2Grows(a: nat, b: nat)
    requires a <= b
    ensures Pow2(a) <= Pow2(b)
  {
    if a < b {
      Pow2Grows(a, b - 1);
    }
  }

  ghost function LeavesIn<V>(s: Store<V>, sp: Span): set<nat> {
    set o | o in s.nodes && o in s.spans && s.nodes[o].Leaf? && sp.lo <= s.spans[o].lo && s.spans[o].hi <= sp.hi
  }

  /** Child i of an inner node: not the root, one level down, inside its parent's span. */
  lemma KidBelow<V>(c: Caps, s: Store<V>, o: nat, i: nat)
    requires Tree(c, s) && o in s.nodes && s.nodes[o].Inner? && i < |s.nodes[o].kids|
    ensures var k := s.nodes[o].kids[i];
      && k in s.nodes && k in s.spans && k != s.root && o in s.spans && Level(s.nodes[k]) + 1 == Level(s.nodes[o])
      && s.spans[o].lo <= s.spans[k].lo && s.spans[k].hi <= s.spans[o].hi
      && |s.nodes[o].kids| == |s.nodes[o].keys| + 1
      && s.spans[k].hi == KidHi(s.nodes[o].keys, s.spans[o], i)
      && s.spans[k].lo == KidLo(s.nodes[o].keys, s.spans[o], i)
  {
    hide NodeOk, PairApart;
    KidFacts(c, s, o, i);
  }

  lemma KidCount<V>(c: Caps, s: Store<V>, o: nat)
    requires Tree(c, s) && o in s.nodes && s.nodes[o].Inner?
    ensures |s.nodes[o].kids| >= 1 && (o != s.root ==> |s.nodes[o].kids| >= 2)
  {
    hide PairApart;
    assert NodeOk(c, s, o);
  }

  /** Below an inner node lie at least two subtrees' worth of leaves. */
  lemma {:induction false} ManyLeaves<V>(c: Caps, s: Store<V>, o: nat)
    requires Tree(c, s) && o in s.nodes && o != s.root
    ensures o in s.spans && |LeavesIn(s, s.spans[o])| >= Pow2(Level(s.nodes[o]))
    decreases Level(s.nodes[o])
  {
    hide Tree;
    TreeSpans(c, s);
    var n := s.nodes[o];
    if n.Leaf? {
      Cardinal({o}, LeavesIn(s, s.spans[o]));
    } else {
      KidCount(c, s, o);
      KidBelow(c, s, o, 0);
      KidBelow(c, s, o, 1);
      var a, b := n.kids[0], n.kids[1];
      ManyLeaves(c, s, a);
      ManyLeaves(c, s, b);
      LeavesDisjoint(c, s, s.spans[a], s.spans[b]);
      Cardinal(LeavesIn(s, s.spans[a]) + LeavesIn(s, s.spans[b]), LeavesIn(s, s.spans[o]));
    }
  }

  lemma LeavesDisjoint<V>(c: Caps, s: Store<V>, x: Span, y: Span)
    requires Tree(c, s) && x.hi <= y.lo
    ensures LeavesIn(s, x) !! LeavesIn(s, y)
    ensures |LeavesIn(s, x) + LeavesIn(s, y)| == |LeavesIn(s, x)| + |LeavesIn(s, y)|
  {
    hide PairApart;
    forall o | o in LeavesIn(s, x) ensures o !in LeavesIn(s, y) {
      assert NodeOk(c, s, o);
    }
  }

  lemma {:induction false} Cardinal<T>(a: set<T>, b: set<T>)
    requires a <= b
    ensures |a| <= |b|
  {
    if x :| x in a {
      Cardinal(a - {x}, b - {x});
    }
  }

  /** Every tree whose nodes are disjoint pages of a 64-bit space is at most 53 levels above its leaves. */
  lemma DepthBound<V>(c: Caps, s: Store<V>)
    requires Tree(c, s) && PagesApart(s.nodes.Keys)
    ensures Level(s.nodes[s.root]) <= 53
  {
    hide Tree;
    TreeSpans(c, s);
    if s.nodes[s.root].Inner? {
      KidCount(c, s, s.root);
      KidBelow(c, s, s.root, 0);
      var kid := s.nodes[s.root].kids[0];
      ManyLeaves(c, s, kid);
      Cardinal(LeavesIn(s, s.spans[kid]), s.nodes.Keys);
      PagesBound(s.nodes.Keys, MAX_PAGES);
      if Level(s.nodes[kid]) >= 53 {
        Pow2Grows(53, Level(s.nodes[kid]));
        TooMany();
      }
    }
  }

  lemma TooMany()
    ensures Pow2(53) > MAX_PAGES
  {
    assert Pow2(14) == 0x4000;
    assert Pow2(28) == 0x1000_0000;
    assert Pow2(42) == 0x400_0000_0000;
  }
}
