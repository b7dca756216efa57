/** What one allocation and one release do to a consistent pool. */
module VarPoolSteps {
  import opened VarPoolModel

  function HeadAfter(head: nat, chain: seq<nat>, i: nat): nat
    requires i < |chain|
  {
    if i == 0 then NextOf(chain, i) else head
  }

  lemma LinksAreBlocks(mem: seq<nat>, head: nat, blocks: Blocks, chain: seq<nat>, i: nat)
    requires ChainOk(mem, head, chain) && (forall x :: x in chain ==> x in blocks) && i < |chain|
    ensures chain[i] in chain && chain[i] in blocks
    ensures NullOrBlock(blocks, PrevOf(chain, i)) && NullOrBlock(blocks, NextOf(chain, i))
    ensures NullOrBlock(blocks, head) && NullOrBlock(blocks, HeadAfter(head, chain, i))
    ensures PrevOf(chain, i) == 0 || PrevOf(chain, i) in chain
    ensures NextOf(chain, i) == 0 || NextOf(chain, i) in chain
    ensures head in chain && (HeadAfter(head, chain, i) == 0 || HeadAfter(head, chain, i) in chain)
    ensures i > 0 ==> PrevOf(chain, i) != 0
    ensures i == 0 <==> PrevOf(chain, i) == 0
  {
    assert chain[0] in chain;
    if i > 0 { assert LinkOk(mem, chain, i - 1) && chain[i - 1] in chain; }
    if i + 1 < |chain| { assert chain[i + 1] in chain; }
  }

  // ---- allocation ----

  /** The pool after handing out block b for a need of n words: the rest stays free when it is a block. */
  function Allotted(blocks: Blocks, b: nat, n: nat): Blocks
    requires b in blocks && n <= blocks[b].total
  {
    if blocks[b].total - n >= MIN_BLOCK then Marked(Cut(blocks, b, n), b, true) else Marked(blocks, b, true)
  }

  /** The whole block is handed out. */
  lemma AllotWhole(mem: seq<nat>, m1: seq<nat>, m2: seq<nat>, head: nat, blocks: Blocks, chain: seq<nat>, i: nat)
    requires PoolOk(mem, head, blocks, chain) && i < |chain| && chain[i] in blocks
    requires PrevOf(chain, i) + 3 < |mem| && NextOf(chain, i) + 3 < |mem|
    requires m1 == Unlinked(mem, PrevOf(chain, i), NextOf(chain, i))
    requires blocks[chain[i]].total >= MIN_BLOCK && chain[i] + blocks[chain[i]].total <= |mem|
    requires m2 == Stamp(m1, chain[i], blocks[chain[i]].total, true)
    ensures PoolOk(m2, HeadAfter(head, chain, i), Marked(blocks, chain[i], true), Without(chain, i))
  {
    var b, h1, c1 := chain[i], HeadAfter(head, chain, i), Without(chain, i);
    var d := Marked(blocks, b, true);
    LinksAreBlocks(mem, head, blocks, chain, i);
    UnlinkChain(mem, head, chain, i);
    UnlinkedTags(mem, blocks, {}, PrevOf(chain, i), NextOf(chain, i));
    MarkedShape(blocks, |mem|, b, true);
    MarkedTags(m1, blocks, b, true);
    forall x ensures x in c1 <==> x in d && !d[x].live {
      WithoutHas(mem, head, chain, i, x);
    }
    StampTags(m1, d, {b}, b);
    StampChain(m1, d, h1, c1, b);
    forall x | x in d ensures NotBothFree(d, x) {
      assert NotBothFree(blocks, x);
    }
  }

  lemma MarkedTags(mem: seq<nat>, blocks: Blocks, b: nat, live: bool)
    requires TagsBut(mem, blocks, {}) && b in blocks
    ensures TagsBut(mem, Marked(blocks, b, live), {b})
  {
    forall x | x in blocks && x != b ensures TagOk(mem, Marked(blocks, b, live), x) {
      assert TagOk(mem, blocks, x);
    }
  }

  /** The tail goes back to the list. */
  lemma AllotSplit(mem: seq<nat>, m1: seq<nat>, m2: seq<nat>, m3: seq<nat>, m4: seq<nat>,
                   head: nat, blocks: Blocks, chain: seq<nat>, i: nat, n: nat)
    requires PoolOk(mem, head, blocks, chain) && i < |chain| && chain[i] in blocks
    requires n >= MIN_BLOCK && blocks[chain[i]].total >= n + MIN_BLOCK && chain[i] + blocks[chain[i]].total <= |mem|
    requires PrevOf(chain, i) + 3 < |mem| && NextOf(chain, i) + 3 < |mem|
    requires m1 == Unlinked(mem, PrevOf(chain, i), NextOf(chain, i))
    requires m2 == Stamp(m1, chain[i] + n, blocks[chain[i]].total - n, false)
    requires HeadAfter(head, chain, i) + 3 < |mem|
    requires m3 == Linked(m2, HeadAfter(head, chain, i), chain[i] + n)
    requires m4 == Stamp(m3, chain[i], n, true)
    ensures PoolOk(m4, chain[i] + n, Allotted(blocks, chain[i], n), [chain[i] + n] + Without(chain, i))
  {
    var b, h1, c1 := chain[i], HeadAfter(head, chain, i), Without(chain, i);
    var r := b + n;
    var d := Allotted(blocks, b, n);
    LinksAreBlocks(mem, head, blocks, chain, i);
    UnlinkChain(mem, head, chain, i);
    UnlinkedTags(mem, blocks, {}, PrevOf(chain, i), NextOf(chain, i));
    CutShape(blocks, |mem|, b, n);
    MarkedShape(Cut(blocks, b, n), |mem|, b, true);
    AllottedTags(m1, blocks, b, n);
    forall x ensures x in [r] + c1 <==> x in d && !d[x].live {
      WithoutHas(mem, head, chain, i, x);
    }
    forall x | x in c1 ensures x in d && x != r {
      WithoutHas(mem, head, chain, i, x);
    }
    StampTags(m1, d, {b, r}, r);
    StampChain(m1, d, h1, c1, r);
    ChainFar(d, |mem|, c1, r);
    assert BlockOk(d, |mem|, r);
    LinkChain(m2, h1, c1, r);
    assert NullOrBlock(d, h1);
    LinkedTags(m2, d, {b, r} - {r}, h1, r);
    StampTags(m3, d, {b, r} - {r}, b);
    StampChain(m3, d, r, [r] + c1, b);
    assert {b, r} - {r} - {b} == {};
    AllottedCoalesced(blocks, |mem|, b, n);
  }

  lemma AllottedTags(mem: seq<nat>, blocks: Blocks, b: nat, n: nat)
    requires TagsBut(mem, blocks, {}) && b in blocks && blocks[b].total >= n + MIN_BLOCK
    ensures TagsBut(mem, Allotted(blocks, b, n), {b, b + n})
  {
    forall x | x in Allotted(blocks, b, n) && x !in {b, b + n} ensures TagOk(mem, Allotted(blocks, b, n), x) {
      assert TagOk(mem, blocks, x);
    }
  }

  lemma AllottedCoalesced(blocks: Blocks, end: nat, b: nat, n: nat)
    requires Shape(blocks, end) && Coalesced(blocks) && b in blocks && !blocks[b].live
    requires n >= MIN_BLOCK && blocks[b].total >= n + MIN_BLOCK
    ensures Coalesced(Allotted(blocks, b, n))
  {
    var d := Allotted(blocks, b, n);
    CutShape(blocks, end, b, n);
    assert NotBothFree(blocks, b) && BlockOk(blocks, end, b);
    forall x | x in d ensures NotBothFree(d, x) {
      if x in blocks {
        assert NotBothFree(blocks, x) && ApartFrom(blocks, x, b) && BlockOk(blocks, end, x);
      }
    }
  }

  lemma AllotWholeUntouched(mem: seq<nat>, m1: seq<nat>, m2: seq<nat>, head: nat, blocks: Blocks, chain: seq<nat>,
      i: nat, x: nat)
    requires PoolOk(mem, head, blocks, chain) && i < |chain| && chain[i] in blocks
    requires PrevOf(chain, i) + 3 < |mem| && NextOf(chain, i) + 3 < |mem|
    requires m1 == Unlinked(mem, PrevOf(chain, i), NextOf(chain, i))
    requires blocks[chain[i]].total >= MIN_BLOCK && chain[i] + blocks[chain[i]].total <= |mem|
    requires m2 == Stamp(m1, chain[i], blocks[chain[i]].total, true)
    requires x in blocks && blocks[x].live
    ensures Untouched(mem, m2, blocks, x)
  {
    LinksAreBlocks(mem, head, blocks, chain, i);
    assert x !in chain && BlockOk(blocks, |mem|, x);
    UnlinkedUntouched(mem, blocks, PrevOf(chain, i), NextOf(chain, i), x);
    StampUntouched(m1, blocks, chain[i], blocks[chain[i]].total, true, x, chain[i]);
  }

  lemma AllotSplitUntouched(mem: seq<nat>, m1: seq<nat>, m2: seq<nat>, m3: seq<nat>, m4: seq<nat>,
                            head: nat, blocks: Blocks, chain: seq<nat>, i: nat, n: nat, x: nat)
    requires PoolOk(mem, head, blocks, chain) && i < |chain| && chain[i] in blocks
    requires n >= MIN_BLOCK && blocks[chain[i]].total >= n + MIN_BLOCK && chain[i] + blocks[chain[i]].total <= |mem|
    requires PrevOf(chain, i) + 3 < |mem| && NextOf(chain, i) + 3 < |mem|
    requires m1 == Unlinked(mem, PrevOf(chain, i), NextOf(chain, i))
    requires m2 == Stamp(m1, chain[i] + n, blocks[chain[i]].total - n, false)
    requires HeadAfter(head, chain, i) + 3 < |mem|
    requires m3 == Linked(m2, HeadAfter(head, chain, i), chain[i] + n)
    requires m4 == Stamp(m3, chain[i], n, true)
    requires x in blocks && blocks[x].live
    ensures Untouched(mem, m4, blocks, x)
  {
    var b := chain[i];
    LinksAreBlocks(mem, head, blocks, chain, i);
    assert x !in chain && BlockOk(blocks, |mem|, x);
    UnlinkedUntouched(mem, blocks, PrevOf(chain, i), NextOf(chain, i), x);
    StampUntouched(m1, blocks, b, blocks[b].total - n, false, x, b + n);
    LinkedUntouched(m2, blocks, HeadAfter(head, chain, i), b, b + n, x);
    StampUntouched(m3, blocks, b, n, true, x, b);
  }

  // ---- release ----

  /** Block b is free but neither stamped nor listed, and nothing free begins where it ends. */
  ghost predicate Pending(mem: seq<nat>, head: nat, blocks: Blocks, chain: seq<nat>, b: nat) {
    && Shape(blocks, |mem|) && TagsBut(mem, blocks, {b}) && ChainOk(mem, head, chain)
    && b in blocks && !blocks[b].live
    && (forall x :: x in chain <==> x in blocks && !blocks[x].live && x != b)
    && (forall x {:trigger NotBothFree(blocks, x)} :: x in blocks && x + blocks[x].total != b ==>
      NotBothFree(blocks, x))
  }

  /** The block and its right neighbour, when that is free, as one block. */
  function FreedRight(blocks: Blocks, b: nat): Blocks
    requires b in blocks && blocks[b].total > 0
  {
    var m := Marked(blocks, b, false);
    var e := b + blocks[b].total;
    if e in m && !m[e].live then Joined(m, b) else m
  }

  lemma PendingAlone(mem: seq<nat>, m0: seq<nat>, head: nat, blocks: Blocks, chain: seq<nat>, b: nat)
    requires PoolOk(mem, head, blocks, chain) && b in blocks && blocks[b].live && blocks[b].total > 0
    requires b + 1 < |mem| && m0 == mem[b + 1 := FREE_TAG]
    ensures ChainOk(m0, head, chain) && Shape(Marked(blocks, b, false), |m0|)
    ensures TagsBut(m0, Marked(blocks, b, false), {b})
    ensures var e := b + blocks[b].total;
      (e in blocks ==> blocks[e].live) ==> Pending(m0, head, Marked(blocks, b, false), chain, b)
  {
    var d := Marked(blocks, b, false);
    MarkedShape(blocks, |mem|, b, false);
    assert BlockOk(blocks, |mem|, b);
    forall i | 0 <= i < |chain| && chain[i] + 3 < |mem|
      ensures m0[chain[i] + 2] == mem[chain[i] + 2] && m0[chain[i] + 3] == mem[chain[i] + 3]
    {
      assert chain[i] in chain;
      assert ApartFrom(blocks, chain[i], b) && BlockOk(blocks, |mem|, chain[i]);
    }
    ChainKept(mem, m0, head, chain);
    forall x | x in d && x != b ensures TagOk(m0, d, x) {
      assert TagOk(mem, blocks, x) && ApartFrom(blocks, x, b);
    }
    forall x | x in d && x + d[x].total != b && (x == b ==> (b + d[b].total in d ==> d[b + d[b].total].live))
      ensures NotBothFree(d, x)
    {
      assert NotBothFree(blocks, x);
    }
  }

  lemma PendingJoined(mem: seq<nat>, m0: seq<nat>, m1: seq<nat>, head: nat, blocks: Blocks, chain: seq<nat>, b: nat,
      i: nat)
    requires PoolOk(mem, head, blocks, chain) && b in blocks && blocks[b].live && blocks[b].total > 0
    requires b + 1 < |mem| && m0 == mem[b + 1 := FREE_TAG]
    requires i < |chain| && chain[i] == b + blocks[b].total
    requires PrevOf(chain, i) + 3 < |mem| && NextOf(chain, i) + 3 < |mem|
    requires m1 == Unlinked(m0, PrevOf(chain, i), NextOf(chain, i))
    ensures chain[i] in blocks && !blocks[chain[i]].live
    ensures Pending(m1, HeadAfter(head, chain, i), FreedRight(blocks, b), Without(chain, i), b)
  {
    var e := chain[i];
    assert e in chain;
    var d := Marked(blocks, b, false);
    var f := FreedRight(blocks, b);
    PendingAlone(mem, m0, head, blocks, chain, b);
    LinksAreBlocks(m0, head, d, chain, i);
    UnlinkChain(m0, head, chain, i);
    UnlinkedTags(m0, d, {b}, PrevOf(chain, i), NextOf(chain, i));
    JoinedShape(d, |mem|, b);
    forall x | x in f && x != b ensures TagOk(m1, f, x) {
      assert TagOk(m1, d, x);
    }
    forall x ensures x in Without(chain, i) <==> x in f && !f[x].live && x != b {
      WithoutHas(m0, head, chain, i, x);
    }
    JoinedRightCoalesced(blocks, |mem|, b);
  }

  lemma JoinedRightCoalesced(blocks: Blocks, end: nat, b: nat)
    requires Shape(blocks, end) && Coalesced(blocks) && b in blocks && blocks[b].live && blocks[b].total > 0
    requires b + blocks[b].total in blocks && !blocks[b + blocks[b].total].live
    ensures var f := FreedRight(blocks, b); forall x {:trigger NotBothFree(f, x)} :: x in f && x + f[x].total != b ==>
      NotBothFree(f, x)
  {
    var e, f := b + blocks[b].total, FreedRight(blocks, b);
    forall x | x in f && x + f[x].total != b ensures NotBothFree(f, x) {
      assert NotBothFree(blocks, x) && NotBothFree(blocks, e);
      assert BlockOk(blocks, end, e) && BlockOk(blocks, end, x) && ApartFrom(blocks, x, e);
    }
  }

  /** No free block on the left: the block enters the list. */
  lemma SettleAlone(mem: seq<nat>, m1: seq<nat>, m2: seq<nat>, head: nat, blocks: Blocks, chain: seq<nat>, b: nat)
    requires Pending(mem, head, blocks, chain, b)
    requires forall x :: x in blocks && x + blocks[x].total == b ==> blocks[x].live
    requires blocks[b].total >= MIN_BLOCK && b + blocks[b].total <= |mem| && head + 3 < |mem|
    requires m1 == Stamp(mem, b, blocks[b].total, false) && m2 == Linked(m1, head, b)
    ensures PoolOk(m2, b, blocks, [b] + chain)
  {
    StampTags(mem, blocks, {b}, b);
    StampChain(mem, blocks, head, chain, b);
    ChainFar(blocks, |mem|, chain, b);
    assert BlockOk(blocks, |mem|, b);
    LinkChain(m1, head, chain, b);
    assert chain != [] ==> chain[0] in chain;
    LinkedTags(m1, blocks, {b} - {b}, head, b);
    assert {b} - {b} == {};
    forall x | x in blocks ensures NotBothFree(blocks, x) {
    }
  }

  /** A free block on the left, already listed, takes it in. */
  lemma SettleJoined(mem: seq<nat>, m1: seq<nat>, head: nat, blocks: Blocks, chain: seq<nat>, b: nat, p: nat)
    requires Pending(mem, head, blocks, chain, b)
    requires p in blocks && p + blocks[p].total == b && !blocks[p].live && blocks[p].total > 0
    requires var t := blocks[p].total + blocks[b].total;
      t >= MIN_BLOCK && p + t <= |mem| && m1 == Stamp(mem, p, t, false)
    ensures PoolOk(m1, head, Joined(blocks, p), chain)
  {
    var f := Joined(blocks, p);
    JoinedShape(blocks, |mem|, p);
    forall x | x in f && x != p ensures TagOk(mem, f, x) {
      assert TagOk(mem, blocks, x);
    }
    StampTags(mem, f, {p}, p);
    StampChain(mem, f, head, chain, p);
    assert {p} - {p} == {};
    forall x | x in f ensures NotBothFree(f, x) {
      assert BlockOk(blocks, |mem|, x) && ApartFrom(blocks, x, b) && ApartFrom(blocks, x, p);
      assert BlockOk(blocks, |mem|, p) && BlockOk(blocks, |mem|, b);
      assert NotBothFree(blocks, x) || x + blocks[x].total == b;
      if x + blocks[x].total == b { SameEnd(blocks, |mem|, x, p); }
      assert NotBothFree(blocks, b);
    }
  }

  lemma MergeUntouched(mem: seq<nat>, m0: seq<nat>, m1: seq<nat>, head: nat, blocks: Blocks, chain: seq<nat>, b: nat,
      i: nat, x: nat)
    requires PoolOk(mem, head, blocks, chain) && b in blocks && blocks[b].live
    requires b + 1 < |mem| && m0 == mem[b + 1 := FREE_TAG]
    requires m1 == m0 || (i < |chain| && PrevOf(chain, i) + 3 < |mem| && NextOf(chain, i) + 3 < |mem|
                          && m1 == Unlinked(m0, PrevOf(chain, i), NextOf(chain, i)))
    requires x in blocks && blocks[x].live && x != b
    ensures Untouched(mem, m1, blocks, x)
  {
    assert BlockOk(blocks, |mem|, x) && BlockOk(blocks, |mem|, b) && ApartFrom(blocks, x, b) && x !in chain;
    assert forall w :: x <= w < x + blocks[x].total ==> m0[w] == mem[w];
    if m1 != m0 {
      LinksAreBlocks(mem, head, blocks, chain, i);
      UnlinkedUntouched(m0, blocks, PrevOf(chain, i), NextOf(chain, i), x);
    }
  }

  lemma SettleAloneUntouched(mem: seq<nat>, m1: seq<nat>, m2: seq<nat>, head: nat, blocks: Blocks, chain: seq<nat>,
      b: nat, x: nat)
    requires Pending(mem, head, blocks, chain, b)
    requires blocks[b].total >= MIN_BLOCK && b + blocks[b].total <= |mem| && head + 3 < |mem|
    requires m1 == Stamp(mem, b, blocks[b].total, false) && m2 == Linked(m1, head, b)
    requires x in blocks && blocks[x].live
    ensures Untouched(mem, m2, blocks, x)
  {
    assert chain != [] ==> chain[0] in chain;
    assert BlockOk(blocks, |mem|, x);
    StampUntouched(mem, blocks, b, blocks[b].total, false, x, b);
    LinkedUntouched(m1, blocks, head, b, b, x);
  }

  lemma SettleJoinedUntouched(mem: seq<nat>, m1: seq<nat>, head: nat, blocks: Blocks, chain: seq<nat>, b: nat, p: nat,
      x: nat)
    requires Pending(mem, head, blocks, chain, b)
    requires p in blocks && p + blocks[p].total == b && !blocks[p].live && blocks[p].total > 0
    requires var t := blocks[p].total + blocks[b].total;
      t >= MIN_BLOCK && p + t <= |mem| && m1 == Stamp(mem, p, t, false)
    requires x in blocks && blocks[x].live
    ensures Untouched(mem, m1, blocks, x)
  {
    JoinedShape(blocks, |mem|, p);
    StampUntouched(mem, Joined(blocks, p), p, blocks[p].total + blocks[b].total, false, x, p);
  }
}
