/** The variable-length pool over its memory (src/storage/var_pool.cpp). `mem` is the region in 8-byte
    words; the control block's counters are fields. `blocks` and `chain` exist only for the proof. */
module VarPool {
  import opened Errors
  import opened VarPoolModel
  import opened VarPoolSteps

  /** Words a request of n bytes needs: header, payload rounded up to words, footer. */
  function Need(n: nat): nat {
    var words := HEADER + (n + 7) / 8 + 1;
    if words < MIN_BLOCK then MIN_BLOCK else words
  }

  /** A smallest free block that holds n words. */
  ghost predicate BestFit(blocks: Blocks, b: nat, n: nat) {
    && b in blocks && !blocks[b].live && blocks[b].total >= n
    && forall x :: x in blocks && !blocks[x].live && blocks[x].total >= n ==> blocks[b].total <= blocks[x].total
  }

  /** In the free list, no block of b's size that fits stands in front of b. */
  ghost predicate FirstBest(blocks: Blocks, chain: seq<nat>, b: nat, n: nat) {
    exists at :: 0 <= at < |chain| && chain[at] == b && b in blocks
      && forall j :: 0 <= j < at && chain[j] in blocks && blocks[chain[j]].total >= n
           ==> blocks[b].total < blocks[chain[j]].total
  }

  ghost predicate NoFit(blocks: Blocks, n: nat) {
    forall x :: x in blocks && !blocks[x].live ==> blocks[x].total < n
  }

  /** Block p is free and ends where b begins. */
  predicate FreeBefore(blocks: Blocks, p: nat, b: nat) {
    p in blocks && p + blocks[p].total == b && !blocks[p].live && blocks[p].total > 0
  }

  /** The released block with its free neighbours on both sides as one free block. */
  ghost function Freed(blocks: Blocks, b: nat): Blocks
    requires b in blocks && blocks[b].total > 0
  {
    var f := FreedRight(blocks, b);
    if p :| FreeBefore(f, p, b) then Joined(f, p) else f
  }

  lemma FreedIs(blocks: Blocks, end: nat, b: nat, p: nat)
    requires b in blocks && blocks[b].total > 0 && Shape(FreedRight(blocks, b), end)
    ensures FreeBefore(FreedRight(blocks, b), p, b) ==> Freed(blocks, b) == Joined(FreedRight(blocks, b), p)
    ensures (forall x :: !FreeBefore(FreedRight(blocks, b), x, b)) ==> Freed(blocks, b) == FreedRight(blocks, b)
  {
    var f := FreedRight(blocks, b);
    if q :| FreeBefore(f, q, b) && Freed(blocks, b) == Joined(f, q) {
      if FreeBefore(f, p, b) { SameEnd(f, end, p, q); }
    }
  }

  lemma AllottedWords(blocks: Blocks, end: nat, b: nat, n: nat)
    requires Shape(blocks, end) && b in blocks && !blocks[b].live && MIN_BLOCK <= n <= blocks[b].total
    ensures b in Allotted(blocks, b, n) && n <= Allotted(blocks, b, n)[b].total
    ensures Words(Allotted(blocks, b, n), true) == Words(blocks, true) + Allotted(blocks, b, n)[b].total
    ensures Words(Allotted(blocks, b, n), false) == Words(blocks, false) - Allotted(blocks, b, n)[b].total
    ensures LiveSet(Allotted(blocks, b, n)) == LiveSet(blocks) + {b} && b !in LiveSet(blocks)
  {
    hide Words;
    if blocks[b].total - n >= MIN_BLOCK {
      CutShape(blocks, end, b, n);
      CutWords(blocks, b, n, true);
      CutWords(blocks, b, n, false);
      MarkedWords(Cut(blocks, b, n), b, true, true);
      MarkedWords(Cut(blocks, b, n), b, true, false);
    } else {
      MarkedWords(blocks, b, true, true);
      MarkedWords(blocks, b, true, false);
    }
  }

  lemma AllottedCut(blocks: Blocks, b: nat, n: nat)
    requires b in blocks && 0 < n <= blocks[b].total
    ensures b in Allotted(blocks, b, n)
    ensures blocks[b].total - n >= MIN_BLOCK ==> Allotted(blocks, b, n)[b].total == n
    ensures blocks[b].total - n < MIN_BLOCK ==> Allotted(blocks, b, n)[b].total == blocks[b].total
    ensures blocks[b].total - n < MIN_BLOCK ==> Allotted(blocks, b, n) == Marked(blocks, b, true)
  {
  }

  lemma FreedRightWords(blocks: Blocks, b: nat)
    requires b in blocks && blocks[b].live && blocks[b].total > 0
    ensures Words(FreedRight(blocks, b), true) == Words(blocks, true) - blocks[b].total
    ensures Words(FreedRight(blocks, b), false) == Words(blocks, false) + blocks[b].total
    ensures LiveSet(FreedRight(blocks, b)) == LiveSet(blocks) - {b} && b in LiveSet(blocks)
  {
    hide Words;
    var m := Marked(blocks, b, false);
    MarkedWords(blocks, b, false, true);
    MarkedWords(blocks, b, false, false);
    var e := b + blocks[b].total;
    if e in m && !m[e].live {
      JoinedWords(m, b, true);
      JoinedWords(m, b, false);
    }
  }

  lemma JoinedLeftWords(blocks: Blocks, p: nat, b: nat)
    requires FreeBefore(blocks, p, b) && b in blocks && !blocks[b].live
    ensures Words(Joined(blocks, p), true) == Words(blocks, true)
    ensures Words(Joined(blocks, p), false) == Words(blocks, false)
    ensures LiveSet(Joined(blocks, p)) == LiveSet(blocks)
  {
    hide Words;
    JoinedWords(blocks, p, true);
    JoinedWords(blocks, p, false);
  }

  lemma PendingShape(mem: seq<nat>, head: nat, blocks: Blocks, chain: seq<nat>, b: nat)
    requires Pending(mem, head, blocks, chain, b)
    ensures Shape(blocks, |mem|) && b in blocks && !blocks[b].live
  {
  }

  lemma FreedSums(blocks: Blocks, f: Blocks, end: nat, b: nat, r: Blocks)
    requires b in blocks && blocks[b].live && blocks[b].total > 0 && f == FreedRight(blocks, b)
    requires Shape(f, end) && b in f && !f[b].live
    requires (forall p :: !FreeBefore(f, p, b)) ==> r == f
    requires (exists p :: FreeBefore(f, p, b)) ==> exists p :: FreeBefore(f, p, b) && r == Joined(f, p)
    ensures r == Freed(blocks, b)
    ensures Words(r, true) == Words(blocks, true) - blocks[b].total
    ensures Words(r, false) == Words(blocks, false) + blocks[b].total
    ensures LiveSet(r) == LiveSet(blocks) - {b} && b in LiveSet(blocks)
  {
    hide Words, LiveSet, FreedRight, Freed;
    FreedRightWords(blocks, b);
    if p :| FreeBefore(f, p, b) && r == Joined(f, p) {
      JoinedLeftWords(f, p, b);
      FreedIs(blocks, end, b, p);
    } else {
      FreedIs(blocks, end, b, 0);
    }
  }

  lemma FreedKeeps(blocks: Blocks, b: nat, x: nat)
    requires b in blocks && blocks[b].total > 0 && x in blocks && blocks[x].live && x != b
    ensures x in FreedRight(blocks, b) && FreedRight(blocks, b)[x] == blocks[x]
  {
  }

  lemma UntouchedTwice(m0: seq<nat>, m1: seq<nat>, m2: seq<nat>, blocks: Blocks, f: Blocks, x: nat)
    requires Untouched(m0, m1, blocks, x) && Untouched(m1, m2, f, x) && f[x] == blocks[x]
    ensures Untouched(m0, m2, blocks, x)
  {
  }

  /** Releasing what was just handed out gives back the very same blocks. */
  lemma ReleaseUndoesAllocate(blocks: Blocks, end: nat, b: nat, n: nat)
    requires Shape(blocks, end) && Coalesced(blocks) && b in blocks && !blocks[b].live
    requires MIN_BLOCK <= n <= blocks[b].total
    ensures b in Allotted(blocks, b, n) && Allotted(blocks, b, n)[b].total > 0
    ensures Freed(Allotted(blocks, b, n), b) == blocks
  {
    var a := Allotted(blocks, b, n);
    assert BlockOk(blocks, end, b) && NotBothFree(blocks, b);
    if blocks[b].total - n >= MIN_BLOCK {
      CutShape(blocks, end, b, n);
    }
    assert FreedRight(a, b) == blocks;
    forall x ensures !FreeBefore(blocks, x, b) {
      assert x in blocks ==> NotBothFree(blocks, x);
    }
    FreedIs(a, end, b, 0);
  }

  lemma FreshSums(total: nat)
    ensures Words(map[CTL := Block(total, false)], true) == 0
    ensures Words(map[CTL := Block(total, false)], false) == total
  {
    WordsSet(map[], CTL, Block(total, false), true);
    WordsSet(map[], CTL, Block(total, false), false);
    var none: Blocks := map[];
    assert none - {CTL} == none && Words(none, true) == 0 && Words(none, false) == 0;
    assert none[CTL := Block(total, false)] == map[CTL := Block(total, false)];
  }

  /** Taking an entry off the list leaves its own words as they were. */
  lemma NextUntouched(m0: seq<nat>, m1: seq<nat>, head: nat, chain: seq<nat>, i: nat)
    requires ChainOk(m0, head, chain) && i < |chain|
    requires PrevOf(chain, i) + 3 < |m0| && NextOf(chain, i) + 3 < |m0| && chain[i] < |m0|
    requires m1 == Unlinked(m0, PrevOf(chain, i), NextOf(chain, i))
    ensures m1[chain[i]] == m0[chain[i]]
  {
    assert LinkOk(m0, chain, i);
    if i > 0 { assert Far(chain[i], chain[i - 1]); }
    if i + 1 < |chain| { assert Far(chain[i], chain[i + 1]); }
  }

  lemma BodyUntouched(before: seq<nat>, m0: seq<nat>, m1: seq<nat>, head: nat, chain: seq<nat>, b: nat, i: nat)
    requires b + 1 < |before| && m0 == before[b + 1 := FREE_TAG]
    requires m1 == m0 ||
             (i < |chain| && ChainOk(m0, head, chain) && PrevOf(chain, i) + 3 < |m0| && NextOf(chain, i) + 3 < |m0|
             && m1 == Unlinked(m0, PrevOf(chain, i), NextOf(chain, i))
             && forall j :: 0 <= j < |chain| ==> Far(chain[j], b))
    ensures |m1| == |before| && m1[b + 1] == FREE_TAG
  {
    if m1 != m0 {
      if i > 0 { assert Far(chain[i - 1], b); }
      if i + 1 < |chain| { assert Far(chain[i + 1], b); }
    }
  }

  lemma PendingExtent(mem: seq<nat>, head: nat, blocks: Blocks, chain: seq<nat>, b: nat)
    requires Pending(mem, head, blocks, chain, b)
    ensures CTL <= b && blocks[b].total >= MIN_BLOCK && b + blocks[b].total <= |mem|
    ensures head + 3 < |mem|
  {
    assert BlockOk(blocks, |mem|, b);
    if chain != [] { assert LinkOk(mem, chain, 0); }
  }

  lemma FirstBlock(mem: seq<nat>, head: nat, blocks: Blocks, chain: seq<nat>, b: nat)
    requires Pending(mem, head, blocks, chain, b) && b <= CTL
    ensures forall x :: x in blocks ==> x + blocks[x].total != b
  {
    forall x | x in blocks ensures x + blocks[x].total != b {
      assert BlockOk(blocks, |mem|, x);
    }
  }

  /** The footer in front of b leads to the block that ends there. */
  lemma PrevBlock(mem: seq<nat>, head: nat, blocks: Blocks, chain: seq<nat>, b: nat) returns (p: nat)
    requires Pending(mem, head, blocks, chain, b) && CTL < b < |mem|
    ensures p in blocks && CTL <= p && blocks[p].total > 0 && p + blocks[p].total == b && mem[b - 1] == blocks[p].total
    ensures p + 1 < |mem| && mem[p + 1] == Tag(blocks[p].live)
    ensures forall x :: x in blocks && x + blocks[x].total == b ==> x == p
    ensures p + blocks[p].total + blocks[b].total <= |mem|
  {
    assert BlockOk(blocks, |mem|, b);
    p :| p in blocks && p + blocks[p].total == b;
    assert BlockOk(blocks, |mem|, p) && TagOk(mem, blocks, p);
    forall x | x in blocks && x + blocks[x].total == b ensures x == p {
      SameEnd(blocks, |mem|, x, p);
    }
  }

  ghost function Below(blocks: Blocks, e: nat): set<nat> {
    set b | b in blocks && b < e
  }

  ghost function FreeBelow(blocks: Blocks, e: nat): set<nat> {
    set b | b in blocks && b < e && !blocks[b].live
  }

  lemma WalkTags(mem: seq<nat>, found: Blocks, off: nat, x: Block)
    requires Tags(mem, found) && x.total >= MIN_BLOCK && off + x.total <= |mem|
    requires mem[off] == x.total && mem[off + 1] == Tag(x.live) && mem[off + x.total - 1] == x.total
    ensures Tags(mem, found[off := x])
  {
    var f := found[off := x];
    forall b {:trigger TagOk(mem, f, b)} | b in f ensures TagOk(mem, f, b) {
      if b != off { assert TagOk(mem, found, b); }
    }
  }

  lemma FreeMore(found: Blocks, off: nat, x: Block)
    requires (forall b :: b in found ==> b < off) && x.total > 0
    ensures off !in found && |found[off := x]| == |found| + 1
    ensures |FreeBelow(found[off := x], off + x.total)| == |FreeBelow(found, off)| + if x.live then 0 else 1
  {
    hide FreeBelow;
    assert off !in found && found[off := x].Keys == found.Keys + {off};
    MoreFree(found, off, x);
  }

  lemma MoreFree(found: Blocks, off: nat, x: Block)
    requires (forall b :: b in found ==> b < off) && x.total > 0
    ensures off !in FreeBelow(found, off)
    ensures FreeBelow(found[off := x], off + x.total) == FreeBelow(found, off) + if x.live then {} else {off}
  {
  }

  lemma {:induction false} DistinctCount(s: seq<nat>, elements: set<nat>)
    requires forall i, j :: 0 <= i < j < |s| ==> s[i] != s[j]
    requires forall x :: x in elements <==> x in s
    ensures |elements| == |s|
  {
    if s == [] {
      assert elements == {};
    } else {
      assert s[0] in elements && s == [s[0]] + s[1..];
      forall x ensures x in elements - {s[0]} <==> x in s[1..] {
        if x in s[1..] {
          var i :| 1 <= i < |s| && s[i] == x;
          assert s[0] != s[i];
        }
      }
      DistinctCount(s[1..], elements - {s[0]});
    }
  }

  // ---- a free list in any memory ----

  /** A place of the list, with its mark and its links. */
  predicate MeetOk(mem: seq<nat>, met: seq<nat>, i: nat)
    requires i < |met|
  {
    && CTL <= met[i] && met[i] + MIN_BLOCK <= |mem|
    && mem[met[i] + 1] == FREE_TAG && mem[met[i] + 2] == PrevOf(met, i)
    && (i + 1 < |met| ==> mem[met[i] + 3] == met[i + 1])
  }

  /** These are the places that the links lead to from the head on, and `at` is where they lead next. */
  ghost predicate Met(mem: seq<nat>, head: nat, met: seq<nat>, at: nat) {
    && (forall i {:trigger MeetOk(mem, met, i)} :: 0 <= i < |met| ==> MeetOk(mem, met, i))
    && if met == [] then at == head
       else head == met[0] && MeetOk(mem, met, |met| - 1) && at == mem[met[|met| - 1] + 3]
  }

  predicate PlaceOk(mem: seq<nat>, b: nat, places: set<nat>) {
    && CTL <= b && b + MIN_BLOCK <= |mem|
    && (mem[b + 1] == FREE_TAG ==> mem[b + 3] == 0 || mem[b + 3] in places)
  }

  /** The links from the head on never leave these places of the region. */
  ghost predicate LinksInside(mem: seq<nat>, head: nat, places: set<nat>) {
    (head == 0 || head in places) && forall b :: b in places ==> PlaceOk(mem, b, places)
  }

  lemma NothingMet(mem: seq<nat>, head: nat)
    ensures Met(mem, head, [], head)
  {
  }

  /** The next place was not met before: its back link would lead to two places. */
  lemma MeetNext(mem: seq<nat>, head: nat, met: seq<nat>, at: nat)
    requires Met(mem, head, met, at) && CTL <= at && at + MIN_BLOCK <= |mem|
    requires mem[at + 1] == FREE_TAG && mem[at + 2] == (if met == [] then 0 else met[|met| - 1])
    ensures at !in met && Met(mem, head, met + [at], mem[at + 3])
  {
    var more := met + [at];
    forall i | 0 <= i < |more| ensures MeetOk(mem, more, i) {
      if i < |met| { assert MeetOk(mem, met, i); }
    }
    if at in met {
      var j :| 0 <= j < |met| && met[j] == at;
      SameBefore(mem, head, more, mem[at + 3], j, |met|);
    }
  }

  /** Two equal places would have equal ones in front of them, down to the head, which has none. */
  lemma {:induction false} SameBefore(mem: seq<nat>, head: nat, met: seq<nat>, at: nat, j: nat, k: nat)
    requires Met(mem, head, met, at) && j < k < |met| && met[j] == met[k]
    ensures false
    decreases j
  {
    assert MeetOk(mem, met, j) && MeetOk(mem, met, k) && MeetOk(mem, met, k - 1);
    if j > 0 { SameBefore(mem, head, met, at, j - 1, k - 1); }
  }

  /** Memory has only one list: what was met so far is a part of it. */
  lemma {:induction false} OneList(mem: seq<nat>, head: nat, met: seq<nat>, at: nat, l: seq<nat>)
    requires Met(mem, head, met, at) && Met(mem, head, l, 0)
    ensures |met| <= |l| && met == l[..|met|] && at == if |met| < |l| then l[|met|] else 0
    decreases |met|
  {
    if met != [] {
      var k := |met| - 1;
      assert MeetOk(mem, met, k);
      var front := met[..k];
      forall i | 0 <= i < k ensures MeetOk(mem, front, i) {
        assert MeetOk(mem, met, i);
      }
      if k > 0 { assert MeetOk(mem, met, k - 1); }
      OneList(mem, head, front, met[k], l);
      assert MeetOk(mem, l, k);
    } else if l != [] {
      assert MeetOk(mem, l, 0);
    }
  }

  lemma OnlyList(mem: seq<nat>, head: nat, met: seq<nat>, at: nat)
    requires Met(mem, head, met, at)
    ensures at != 0 ==> forall l :: Met(mem, head, l, 0) ==>
      && |met| < |l| && at == l[|met|] && CTL <= at && at + MIN_BLOCK <= |mem|
      && mem[at + 1] == FREE_TAG && mem[at + 2] == if met == [] then 0 else met[|met| - 1]
    ensures at == 0 ==> forall l :: Met(mem, head, l, 0) <==> l == met
  {
    forall l | Met(mem, head, l, 0)
      ensures if at == 0 then l == met else
        && |met| < |l| && at == l[|met|] && CTL <= at && at + MIN_BLOCK <= |mem|
        && mem[at + 1] == FREE_TAG && mem[at + 2] == if met == [] then 0 else met[|met| - 1]
    {
      OneList(mem, head, met, at, l);
      if |met| < |l| { assert MeetOk(mem, l, |met|); }
    }
  }

  class Pool {
    const mem: array<nat>
    var freeHead: nat
    var freeCount: nat
    var allocCount: nat
    var allocWords: nat
    ghost var blocks: Blocks
    ghost var chain: seq<nat>

    /** Memory, blocks and free list agree. */
    ghost predicate Consistent()
      reads this, mem
    {
      PoolOk(mem[..], freeHead, blocks, chain) && freeCount == |chain|
    }

    ghost predicate Valid()
      reads this, mem
    {
      && Consistent()
      && allocCount == |LiveSet(blocks)|
      && allocWords == Words(blocks, true)
      && Words(blocks, true) + Words(blocks, false) == mem.Length - CTL
    }

    /** What owners write into their payloads does not disturb the pool. */
    twostate lemma OwnersWrite(b: nat)
      requires old(Valid()) && b in old(blocks) && old(blocks)[b].live
      requires freeHead == old(freeHead) && freeCount == old(freeCount) && chain == old(chain)
      requires blocks == old(blocks) && allocCount == old(allocCount) && allocWords == old(allocWords)
      requires OnlyPayload(old(mem[..]), mem[..], blocks, b)
      ensures Valid()
    {
      PayloadKeeps(old(mem[..]), mem[..], freeHead, blocks, chain, b);
    }

    /** A fresh region: one free block from the control block to the end. */
    constructor Create(region: array<nat>)
      requires region.Length >= CTL + MIN_BLOCK
      modifies region
      ensures mem == region && Valid() && blocks == map[CTL := Block(region.Length - CTL, false)]
    {
      mem := region;
      freeHead, freeCount, allocCount, allocWords := CTL, 1, 0, 0;
      blocks, chain := map[CTL := Block(region.Length - CTL, false)], [CTL];
      new;
      var total := mem.Length - CTL;
      mem[CTL], mem[CTL + 1] := total, FREE_TAG;
      mem[CTL + 2], mem[CTL + 3] := 0, 0;
      mem[CTL + total - 1] := total;
      FreshSums(total);
      assert BlockOk(blocks, mem.Length, CTL) && LinkOk(mem[..], chain, 0) && TagOk(mem[..], blocks, CTL);
      assert LiveSet(blocks) == {};
    }

    method UnlinkFree(b: nat, ghost i: nat)
      requires ChainOk(mem[..], freeHead, chain) && i < |chain| && chain[i] == b && freeCount == |chain|
      modifies mem, `freeHead, `freeCount, `chain
      ensures PrevOf(old(chain), i) + 3 < mem.Length && NextOf(old(chain), i) + 3 < mem.Length
      ensures mem[..] == Unlinked(old(mem[..]), PrevOf(old(chain), i), NextOf(old(chain), i))
      ensures freeHead == HeadAfter(old(freeHead), old(chain), i)
      ensures chain == Without(old(chain), i) && freeCount == |chain|
    {
      UnlinkBounds(mem[..], freeHead, chain, i);
      assert i > 0 ==> LinkOk(mem[..], chain, i - 1);
      var prev, next := mem[b + 2], mem[b + 3];
      if prev != 0 {
        mem[prev + 3] := next;
      } else {
        freeHead := next;
      }
      if next != 0 {
        mem[next + 2] := prev;
      }
      freeCount := freeCount - 1;
      chain := Without(chain, i);
    }

    method LinkFree(b: nat)
      requires b + 3 < mem.Length && freeHead + 3 < mem.Length && freeCount == |chain|
      modifies mem, `freeHead, `freeCount, `chain
      ensures mem[..] == Linked(old(mem[..]), old(freeHead), b)
      ensures freeHead == b && chain == [b] + old(chain) && freeCount == |chain|
    {
      mem[b + 2] := 0;
      mem[b + 3] := freeHead;
      if freeHead != 0 {
        mem[freeHead + 2] := b;
      }
      freeHead := b;
      freeCount := freeCount + 1;
      chain := [b] + chain;
    }

    method WriteTags(b: nat, total: nat, live: bool)
      requires total >= MIN_BLOCK && b + total <= mem.Length
      modifies mem
      ensures mem[..] == Stamp(old(mem[..]), b, total, live)
    {
      mem[b] := total;
      mem[b + 1] := Tag(live);
      mem[b + total - 1] := total;
    }

    /** The scan of the free list: the first of the smallest blocks that fit, or none. */
    method FindBest(need: nat) returns (best: nat, ghost at: nat)
      requires Consistent()
      ensures best == 0 ==> NoFit(blocks, need)
      ensures best != 0 ==> BestFit(blocks, best, need) && at < |chain| && chain[at] == best
      ensures best != 0 ==> Larger(at, need, best)
    {
      hide Words, PoolOk, NoFit, BestFit;
      WalkEnd();
      best, at := 0, 0;
      var bestTotal := 0;
      var off := freeHead;
      ghost var i := 0;
      while off != 0
        invariant i <= |chain| && off == (if i < |chain| then chain[i] else 0)
        invariant best == 0 ==> Smaller(i, need)
        invariant best != 0 ==> at < i && chain[at] == best && best in blocks && blocks[best].total == bestTotal >= need
        invariant best != 0 ==> Minimal(i, need, bestTotal) && Larger(at, need, best)
        decreases |chain| - i
      {
        Listed(i);
        var fits := mem[off] >= need && (best == 0 || mem[off] < bestTotal);
        i := i + 1;
        if fits {
          best, bestTotal, at := off, mem[off], i - 1;
          if bestTotal == need { break; }
        }
        off := mem[off + 3];
      }
      if i < |chain| { Listed(i); }
      if best == 0 {
        NoneListed(need);
      } else {
        BestListed(at, need);
      }
    }

    lemma NoneListed(need: nat)
      requires Consistent() && Smaller(|chain|, need)
      ensures NoFit(blocks, need)
    {
      assert forall x :: x in chain ==> exists j :: 0 <= j < |chain| && chain[j] == x;
    }

    lemma BestListed(at: nat, need: nat)
      requires Consistent() && at < |chain| && chain[at] in blocks && blocks[chain[at]].total >= need
      requires blocks[chain[at]].total == need || Minimal(|chain|, need, blocks[chain[at]].total)
      ensures BestFit(blocks, chain[at], need)
    {
      Listed(at);
      assert forall x :: x in chain ==> exists j :: 0 <= j < |chain| && chain[j] == x;
    }

    /** The first i list entries are all smaller than n. */
    ghost predicate Smaller(i: nat, n: nat)
      requires i <= |chain|
      reads this
    {
      forall j :: 0 <= j < i && chain[j] in blocks ==> blocks[chain[j]].total < n
    }

    /** The first i list entries that fit are all larger than block b. */
    ghost predicate Larger(i: nat, n: nat, b: nat)
      requires i <= |chain| && b in blocks
      reads this
    {
      forall j :: 0 <= j < i && chain[j] in blocks && blocks[chain[j]].total >= n
        ==> blocks[b].total < blocks[chain[j]].total
    }

    /** Among the first i list entries none that fits is smaller than t. */
    ghost predicate Minimal(i: nat, n: nat, t: nat)
      requires i <= |chain|
      reads this
    {
      forall j :: 0 <= j < i && chain[j] in blocks && blocks[chain[j]].total >= n ==> t <= blocks[chain[j]].total
    }

    lemma Listed(i: nat)
      requires Consistent() && i < |chain|
      ensures var b := chain[i];
        && b in blocks && !blocks[b].live && b != 0 && b + MIN_BLOCK <= mem.Length
        && mem[b] == blocks[b].total && mem[b + 3] == NextOf(chain, i)
    {
      hide Words;
      assert chain[i] in chain;
      assert LinkOk(mem[..], chain, i) && TagOk(mem[..], blocks, chain[i]);
    }

    /** Offsets of payloads are in bytes. */
    predicate OwnsOffset(poolOff: nat)
      reads this
    {
      poolOff >= 8 * (CTL + HEADER) && poolOff < 8 * mem.Length && poolOff % 8 == 0
    }

    ghost predicate OthersUntouched(before: seq<nat>, was: Blocks, except: nat)
      reads this, mem
    {
      forall x :: x in was && was[x].live && x != except ==> Untouched(before, mem[..], was, x)
    }

    /** Hands out list entry i, cutting it when the rest is a block of its own. */
    method TakeBlock(b: nat, need: nat, ghost i: nat)
      requires Valid() && i < |chain| && chain[i] == b && b in blocks && !blocks[b].live
      requires MIN_BLOCK <= need <= blocks[b].total
      modifies this, mem
      ensures Valid() && blocks == Allotted(old(blocks), b, need)
      ensures b in blocks && blocks[b].total >= need
      ensures OthersUntouched(old(mem[..]), old(blocks), b)
    {
      hide Words, LiveSet, Untouched, Shape, Tags, Coalesced, ChainOk, ListsFree, Unlinked, Linked, Stamp, Allotted;
      Listed(i);
      Extent(b);
      ListEdges(i);
      ghost var h0, c0, m0 := freeHead, chain, mem[..];
      AllottedWords(blocks, mem.Length, b, need);
      var total := mem[b];
      UnlinkFree(b, i);
      ghost var h1, m1 := freeHead, mem[..];
      if total - need >= MIN_BLOCK {
        WriteTags(b + need, total - need, false);
        ghost var m2 := mem[..];
        LinkFree(b + need);
        ghost var m3 := mem[..];
        WriteTags(b, need, true);
        AllotSplit(m0, m1, m2, m3, mem[..], h0, blocks, c0, i, need);
        forall x | x in blocks && blocks[x].live ensures Untouched(m0, mem[..], blocks, x) {
          AllotSplitUntouched(m0, m1, m2, m3, mem[..], h0, blocks, c0, i, need, x);
        }
        AllottedCut(blocks, b, need);
        total := need;
      } else {
        WriteTags(b, total, true);
        AllotWhole(m0, m1, mem[..], h0, blocks, c0, i);
        forall x | x in blocks && blocks[x].live ensures Untouched(m0, mem[..], blocks, x) {
          AllotWholeUntouched(m0, m1, mem[..], h0, blocks, c0, i, x);
        }
        AllottedCut(blocks, b, need);
      }
      allocCount := allocCount + 1;
      allocWords := allocWords + total;
      blocks := Allotted(blocks, b, need);
    }

    lemma Extent(b: nat)
      requires Consistent() && b in blocks
      ensures Shape(blocks, mem.Length) && CTL <= b && blocks[b].total >= MIN_BLOCK && b + blocks[b].total <= mem.Length
      ensures mem[b] == blocks[b].total && mem[b + 1] == Tag(blocks[b].live) && Coalesced(blocks)
    {
      hide Words;
      assert BlockOk(blocks, mem.Length, b) && TagOk(mem[..], blocks, b);
    }

    lemma ListEdges(i: nat)
      requires Consistent() && i < |chain|
      ensures ChainOk(mem[..], freeHead, chain) && HeadAfter(freeHead, chain, i) + 3 < mem.Length
      ensures PrevOf(chain, i) + 3 < mem.Length && NextOf(chain, i) + 3 < mem.Length
    {
      hide Words;
      UnlinkBounds(mem[..], freeHead, chain, i);
      UnlinkBounds(mem[..], freeHead, chain, 0);
    }

    method Allocate(n: nat) returns (r: Result<nat>)
      requires Valid()
      modifies this, mem
      ensures Valid()
      ensures n == 0 || n > 8 * mem.Length ==> r == Failure(InvalidArgument)
      ensures 0 < n <= 8 * mem.Length ==>
        (if NoFit(old(blocks), Need(n)) then r == Failure(OutOfMemory) else r.Success?)
      ensures r.Failure? ==> mem[..] == old(mem[..]) && blocks == old(blocks) && chain == old(chain)
      ensures r.Success? ==>
        && r.value % 8 == 0 && r.value / 8 >= HEADER
        && var b := r.value / 8 - HEADER;
        && BestFit(old(blocks), b, Need(n)) && blocks == Allotted(old(blocks), b, Need(n))
        && b in blocks && 8 * (blocks[b].total - HEADER - 1) >= n
        && FirstBest(old(blocks), old(chain), b, Need(n))
        && OthersUntouched(old(mem[..]), old(blocks), b)
    {
      hide PoolOk, Words, Allotted, LiveSet;
      if n == 0 || n > 8 * mem.Length { return Failure(InvalidArgument); }
      var need := HEADER + (n + 7) / 8 + 1;
      if need < MIN_BLOCK { need := MIN_BLOCK; }
      var b;
      ghost var i;
      b, i := FindBest(need);
      if b == 0 { return Failure(OutOfMemory); }
      TakeBlock(b, need, i);
      return Success(8 * (b + HEADER));
    }

    /** Marks block b free and takes in a free block behind it. */
    method MergeRight(b: nat) returns (total: nat)
      requires Consistent() && b in blocks && blocks[b].live && blocks[b].total > 0
      modifies mem, `freeHead, `freeCount, `chain
      ensures b in FreedRight(blocks, b) && total == FreedRight(blocks, b)[b].total
      ensures Pending(mem[..], freeHead, FreedRight(blocks, b), chain, b)
      ensures freeCount == |chain| && b + 1 < mem.Length && mem[b + 1] == FREE_TAG
      ensures OthersUntouched(old(mem[..]), blocks, b)
    {
      hide Words, LiveSet, Untouched, Shape, Tags, Coalesced, ChainOk, ListsFree, Unlinked, Pending;
      Extent(b);
      FarFromFree(b);
      ghost var h0, c0, before := freeHead, chain, mem[..];
      var next := b + mem[b];
      NextBlock(b);
      total := mem[b];
      mem[b + 1] := FREE_TAG;
      ghost var m0 := mem[..];
      ghost var i: nat := 0;
      PendingAlone(before, m0, h0, blocks, c0, b);
      if next < mem.Length && mem[next + 1] == FREE_TAG {
        i :| i < |c0| && c0[i] == next;
        UnlinkBounds(m0, h0, c0, i);
        UnlinkFree(next, i);
        PendingJoined(before, m0, mem[..], h0, blocks, c0, b, i);
        total := total + mem[next];
        NextUntouched(m0, mem[..], h0, c0, i);
      }
      forall x | x in blocks && blocks[x].live && x != b ensures Untouched(before, mem[..], blocks, x) {
        MergeUntouched(before, m0, mem[..], h0, blocks, c0, b, i, x);
      }
      BodyUntouched(before, m0, mem[..], h0, c0, b, i);
    }

    lemma FarFromFree(b: nat)
      requires Consistent() && b in blocks && blocks[b].live
      ensures forall j :: 0 <= j < |chain| ==> Far(chain[j], b)
    {
      hide Words;
      ChainFar(blocks, mem.Length, chain, b);
    }

    lemma NextBlock(b: nat)
      requires Consistent() && b in blocks
      ensures var e := b + blocks[b].total;
        && e <= mem.Length
        && (e < mem.Length ==>
              (e in blocks && e + 1 < mem.Length && mem[e] == blocks[e].total && mem[e + 1] == Tag(blocks[e].live)
              && (!blocks[e].live ==> e in chain)))
        && (e == mem.Length ==> e !in blocks)
    {
      hide Words;
      assert BlockOk(blocks, mem.Length, b) && TagOk(mem[..], blocks, b);
      var e := b + blocks[b].total;
      if e in blocks {
        assert BlockOk(blocks, mem.Length, e) && TagOk(mem[..], blocks, e);
      }
    }

    /** Hooks the pending block up: into a free block on its left, or onto the list. */
    method Settle(b: nat, total: nat)
      requires Pending(mem[..], freeHead, blocks, chain, b) && total == blocks[b].total
      requires freeCount == |chain| && b + 1 < mem.Length && mem[b + 1] == FREE_TAG
      modifies mem, `freeHead, `freeCount, `chain, `blocks
      ensures PoolOk(mem[..], freeHead, blocks, chain) && freeCount == |chain|
      ensures (forall p :: !FreeBefore(old(blocks), p, b)) ==> blocks == old(blocks)
      ensures (exists p :: FreeBefore(old(blocks), p, b)) ==>
                exists p :: FreeBefore(old(blocks), p, b) && blocks == Joined(old(blocks), p)
      ensures OthersUntouched(old(mem[..]), old(blocks), b)
    {
      hide Untouched, Shape, TagsBut, ChainOk, Linked, PoolOk;
      ghost var h0, c0, m0, b0 := freeHead, chain, mem[..], blocks;
      PendingExtent(m0, h0, b0, c0, b);
      if b > CTL {
        ghost var q := PrevBlock(m0, h0, b0, c0, b);
        var prevTotal := mem[b - 1];
        if prevTotal <= b && b - prevTotal >= CTL {
          var p := b - prevTotal;
          if mem[p + 1] == FREE_TAG {
            assert p == q && FreeBefore(b0, p, b);
            mem[p] := prevTotal + total;
            mem[p + prevTotal + total - 1] := prevTotal + total;
            assert mem[..] == Stamp(m0, p, prevTotal + total, false);
            SettleJoined(m0, mem[..], h0, b0, c0, b, p);
            forall x | x in b0 && b0[x].live ensures Untouched(m0, mem[..], b0, x) {
              SettleJoinedUntouched(m0, mem[..], h0, b0, c0, b, p, x);
            }
            blocks := Joined(b0, p);
            return;
          }
        }
        assert forall x :: x in b0 && x + b0[x].total == b ==> b0[x].live;
      } else {
        FirstBlock(m0, h0, b0, c0, b);
      }
      assert forall x :: x in b0 && x + b0[x].total == b ==> b0[x].live;
      mem[b] := total;
      mem[b + total - 1] := total;
      ghost var m1 := mem[..];
      assert m1 == Stamp(m0, b, total, false);
      LinkFree(b);
      SettleAlone(m0, m1, mem[..], h0, b0, c0, b);
      forall x | x in b0 && b0[x].live ensures Untouched(m0, mem[..], b0, x) {
        SettleAloneUntouched(m0, m1, mem[..], h0, b0, c0, b, x);
      }
    }

    /** Gives block b back. */
    method Release(b: nat)
      requires Valid() && b in blocks && blocks[b].live && blocks[b].total > 0
      modifies this, mem
      ensures Valid() && blocks == Freed(old(blocks), b)
      ensures OthersUntouched(old(mem[..]), old(blocks), b)
    {
      hide Words, LiveSet, PoolOk, Shape, Pending, FreeBefore, Freed, FreedRight, Untouched;
      Extent(b);
      ghost var b0, m0 := blocks, mem[..];
      FreedRightWords(b0, b);
      allocCount := allocCount - 1;
      allocWords := allocWords - mem[b];
      var total := MergeRight(b);
      ghost var m1, f := mem[..], FreedRight(b0, b);
      blocks := f;
      PendingShape(m1, freeHead, f, chain, b);
      Settle(b, total);
      FreedSums(b0, f, mem.Length, b, blocks);
      forall x | x in b0 && b0[x].live && x != b ensures Untouched(m0, mem[..], b0, x) {
        FreedKeeps(b0, b, x);
        assert Untouched(m0, m1, b0, x);
        assert Untouched(m1, mem[..], f, x);
        UntouchedTwice(m0, m1, mem[..], b0, f, x);
      }
    }

    method Deallocate(poolOff: nat) returns (e: Err)
      requires Valid()
      requires OwnsOffset(poolOff) && mem[poolOff / 8 - 1] == ALLOC_TAG ==> poolOff / 8 - HEADER in blocks
      modifies this, mem
      ensures Valid()
      ensures e == Ok <==> poolOff % 8 == 0 && HEADER <= poolOff / 8 && poolOff / 8 - HEADER in LiveSet(old(blocks))
      ensures e == InvalidArgument <==>
        poolOff < 8 * (CTL + HEADER) || poolOff >= 8 * mem.Length || poolOff % 8 != 0
      ensures e == Ok || e == InvalidArgument || e == Internal
      ensures e != Ok ==> mem[..] == old(mem[..]) && blocks == old(blocks) && chain == old(chain)
      ensures e == Ok ==>
        && old(blocks)[poolOff / 8 - HEADER].total > 0
        && blocks == Freed(old(blocks), poolOff / 8 - HEADER)
        && OthersUntouched(old(mem[..]), old(blocks), poolOff / 8 - HEADER)
    {
      hide Words, PoolOk, Freed, OthersUntouched;
      if HEADER <= poolOff / 8 && poolOff / 8 - HEADER in blocks { Extent(poolOff / 8 - HEADER); }
      if !OwnsOffset(poolOff) { return InvalidArgument; }
      var b := poolOff / 8 - HEADER;
      if b in blocks { Extent(b); }
      if mem[b + 1] != ALLOC_TAG { return Internal; }
      if b + mem[b] > mem.Length { return Corruption; }
      Release(b);
      return Ok;
    }

    /** The self-check on any memory whose list links stay inside the region: walks the blocks by their sizes, then the
        list. What it accepts is tiled by the blocks it counts, and the list has as many entries as there are free
        ones; it accepts every valid pool. */
    method ValidateWalk(ghost places: set<nat>) returns (e: Err, blockCount: nat, ghost found: Blocks)
      requires CTL < mem.Length && LinksInside(mem[..], freeHead, places)
      ensures e == Ok || e == Corruption
      ensures e == Ok ==> Shape(found, mem.Length) && Tags(mem[..], found) && blockCount == |found|
      ensures e == Ok ==> freeCount == |FreeBelow(found, mem.Length)| && ListCounts()
      ensures Valid() ==> e == Ok && found == blocks
    {
      hide Words, LiveSet, PoolOk, Shape, FreeBelow, Tags, ListCounts, LinksInside;
      e, blockCount, found := WalkBlocks();
      if Consistent() { ChainCounts(); }
      if e == Ok { e := ValidateList(places); }
    }

    /** The first half of the walk, on any memory at all: what it accepts is tiled by the blocks that the sizes lead
        to, with header and footer of each agreeing, and as many free ones as the control block says; and it accepts
        every consistent pool. */
    method WalkBlocks() returns (e: Err, blockCount: nat, ghost found: Blocks)
      requires CTL < mem.Length
      ensures e == Ok || e == Corruption
      ensures e == Ok ==> Shape(found, mem.Length) && Tags(mem[..], found)
      ensures e == Ok ==> blockCount == |found| && freeCount == |FreeBelow(found, mem.Length)|
      ensures Consistent() ==> e == Ok && found == blocks
    {
      hide Consistent, Seen, Shape, Tags, FreeBelow;
      blockCount, found := 0, map[];
      var freeSeen := 0;
      var off := CTL;
      NothingFound();
      while off < mem.Length
        invariant CTL <= off <= mem.Length && Seen(found, off, blockCount, freeSeen)
        decreases mem.Length - off
      {
        if Consistent() { WalkMeets(found, off, blockCount, freeSeen); }
        if mem[off] < MIN_BLOCK || off + mem[off] > mem.Length { return Corruption, blockCount, found; }
        var isAlloc, isFree := mem[off + 1] == ALLOC_TAG, mem[off + 1] == FREE_TAG;
        if !isAlloc && !isFree { return Corruption, blockCount, found; }
        if mem[off + mem[off] - 1] != mem[off] { return Corruption, blockCount, found; }
        WalkOn(found, off, Block(mem[off], isAlloc), blockCount, freeSeen);
        if isFree { freeSeen := freeSeen + 1; }
        blockCount := blockCount + 1;
        found := found[off := Block(mem[off], isAlloc)];
        off := off + mem[off];
      }
      WalkDone(found, blockCount, freeSeen);
      if Consistent() { WalkEnd(); }
      if freeSeen != freeCount { return Corruption, blockCount, found; }
      e := Ok;
    }

    /** What the walk has found and counted up to here; on a consistent pool these are the blocks up to here. */
    ghost predicate Seen(found: Blocks, off: nat, count: nat, frees: nat)
      reads this, mem
    {
      && Tags(mem[..], found) && Walked(found, off) && count == |found| && frees == |FreeBelow(found, off)|
      && (Consistent() ==> SoFar(found, off))
    }

    /** The walk has tiled the region up to here. */
    ghost predicate Walked(found: Blocks, off: nat)
      reads this
    {
      if off == CTL then found == map[] else Shape(found, off) && Ends(found, off)
    }

    /** What it found are the blocks up to here. */
    ghost predicate SoFar(found: Blocks, off: nat)
      reads this
    {
      && (off == mem.Length || off in blocks)
      && forall b :: (b in found <==> b in blocks && b < off) && (b in found ==> found[b] == blocks[b])
    }

    lemma NothingFound()
      ensures Seen(map[], CTL, 0, 0)
    {
      if Consistent() { WalkStart(); }
      assert FreeBelow(map[], CTL) == {};
      assert forall b :: b in blocks && b < CTL ==> b in Below(blocks, CTL);
    }

    /** One more block. */
    lemma WalkOn(found: Blocks, off: nat, x: Block, count: nat, frees: nat)
      requires CTL <= off && Seen(found, off, count, frees) && off + x.total <= mem.Length
      requires x.total >= MIN_BLOCK && mem[off] == x.total && mem[off + 1] == Tag(x.live)
        && mem[off + x.total - 1] == x.total
      ensures Seen(found[off := x], off + x.total, count + 1, frees + if x.live then 0 else 1)
    {
      hide Walked, Shape, Consistent, SoFar, Tags, FreeBelow;
      FoundBelow(found, off);
      WalkShape(found, off, x);
      WalkTags(mem[..], found, off, x);
      FreeMore(found, off, x);
      if Consistent() {
        WalkMeets(found, off, count, frees);
        assert x == blocks[off];
      }
    }

    /** On a consistent pool the walk meets the blocks. */
    lemma WalkMeets(found: Blocks, off: nat, count: nat, frees: nat)
      requires Consistent() && Seen(found, off, count, frees) && off < mem.Length
      ensures off in blocks && mem[off] == blocks[off].total >= MIN_BLOCK && off + mem[off] <= mem.Length
      ensures mem[off + 1] == Tag(blocks[off].live) && mem[off + mem[off] - 1] == mem[off]
      ensures SoFar(found[off := blocks[off]], off + mem[off])
    {
      hide Consistent, Shape, Walked, Tags, FreeBelow, SoFar;
      MeetsBlock(found, off);
    }

    lemma MeetsBlock(found: Blocks, off: nat)
      requires Consistent() && SoFar(found, off) && off < mem.Length
      ensures off in blocks && mem[off] == blocks[off].total >= MIN_BLOCK && off + mem[off] <= mem.Length
      ensures mem[off + 1] == Tag(blocks[off].live) && mem[off + mem[off] - 1] == mem[off]
      ensures SoFar(found[off := blocks[off]], off + mem[off])
    {
      hide PoolOk, Shape;
      Extent(off);
      NextBlock(off);
      Footer(off);
      WalkStep(off);
      forall b ensures b in blocks && b < off + mem[off] <==> b in blocks && (b < off || b == off) {
        assert b in blocks && b < off + mem[off] <==> b in Below(blocks, off + mem[off]);
      }
    }

    lemma FoundBelow(found: Blocks, off: nat)
      requires Walked(found, off)
      ensures forall b :: b in found ==> b < off && b + found[b].total <= off
    {
      forall b | b in found ensures b < off && b + found[b].total <= off {
        assert BlockOk(found, off, b);
      }
    }

    lemma WalkShape(found: Blocks, off: nat, x: Block)
      requires CTL <= off && Walked(found, off) && x.total >= MIN_BLOCK
      requires forall b :: b in found ==> b < off && b + found[b].total <= off
      ensures Walked(found[off := x], off + x.total)
    {
      var f := found[off := x];
      assert f[off].total == x.total;
      if off > CTL {
        var p :| p in found && p + found[p].total == off;
        assert f[p].total == found[p].total;
      }
      forall b | b in f ensures BlockOk(f, off + x.total, b) {
        if b != off {
          assert BlockOk(found, off, b);
          if b != CTL {
            var p :| p in found && p + found[p].total == b;
            assert p in f && f[p].total == found[p].total;
          }
        }
      }
      forall a, b | a in f && b in f ensures ApartFrom(f, a, b) {
        if a != off && b != off { assert ApartFrom(found, a, b); }
      }
    }

    lemma WalkDone(found: Blocks, count: nat, frees: nat)
      requires CTL < mem.Length && Seen(found, mem.Length, count, frees)
      ensures Shape(found, mem.Length) && Tags(mem[..], found)
      ensures count == |found| && frees == |FreeBelow(found, mem.Length)|
      ensures Consistent() ==> found == blocks
    {
      hide Tags, FreeBelow, Shape;
      if Consistent() {
        forall b | b in blocks ensures b in found {
          Extent(b);
        }
      }
    }

    /** The free list has as many entries as the control block says, with marks and back links in order. */
    ghost predicate ListCounts()
      reads this, mem
    {
      exists l :: Met(mem[..], freeHead, l, 0) && |l| == freeCount
    }

    /** The second half of the walk: along the list, checking marks and back links. */
    method ValidateList(ghost places: set<nat>) returns (e: Err)
      requires LinksInside(mem[..], freeHead, places)
      ensures e == if ListCounts() then Ok else Corruption
    {
      hide Met;
      var linked, prev := 0, 0;
      ghost var met, rest := [], places;
      var at := freeHead;
      NothingMet(mem[..], freeHead);
      while at != 0
        invariant Met(mem[..], freeHead, met, at) && linked == |met| && (at == 0 || at in places)
        invariant prev == (if met == [] then 0 else met[|met| - 1])
        invariant forall b :: b in rest <==> b in places && b !in met
        decreases rest
      {
        OnlyList(mem[..], freeHead, met, at);
        if mem[at + 1] != FREE_TAG { return Corruption; }
        if mem[at + 2] != prev { return Corruption; }
        MeetNext(mem[..], freeHead, met, at);
        met, rest := met + [at], rest - {at};
        prev := at;
        at := mem[at + 3];
        linked := linked + 1;
      }
      OnlyList(mem[..], freeHead, met, at);
      if linked != freeCount { return Corruption; }
      return Ok;
    }

    lemma ChainCounts()
      requires Consistent()
      ensures ListCounts()
    {
      hide PoolOk;
      WalkEnd();
      forall i | 0 <= i < |chain| ensures MeetOk(mem[..], chain, i) {
        Listed(i);
        BackLink(i);
      }
      if chain != [] { Listed(|chain| - 1); }
      assert Met(mem[..], freeHead, chain, 0);
    }

    /** In a valid pool the links stay inside. */
    lemma ChainInside()
      requires Consistent()
      ensures LinksInside(mem[..], freeHead, set b | b in chain)
    {
      hide PoolOk;
      WalkEnd();
      forall b | b in chain ensures PlaceOk(mem[..], b, set x | x in chain) {
        var i :| 0 <= i < |chain| && chain[i] == b;
        Listed(i);
        BackLink(i);
      }
    }

    lemma BackLink(i: nat)
      requires Consistent() && i < |chain|
      ensures CTL <= chain[i] && chain[i] + MIN_BLOCK <= mem.Length
      ensures mem[chain[i] + 2] == PrevOf(chain, i) && mem[chain[i] + 1] == FREE_TAG
    {
      Listed(i);
      assert LinkOk(mem[..], chain, i) && TagOk(mem[..], blocks, chain[i]);
    }

    lemma Footer(b: nat)
      requires Consistent() && b in blocks
      ensures blocks[b].total >= MIN_BLOCK && b + blocks[b].total <= mem.Length
      ensures mem[b + blocks[b].total - 1] == blocks[b].total
    {
      assert TagOk(mem[..], blocks, b) && BlockOk(blocks, mem.Length, b);
    }

    lemma WalkStart()
      requires Consistent()
      ensures CTL in blocks && CTL < mem.Length && Below(blocks, CTL) == {} && FreeBelow(blocks, CTL) == {}
    {
      forall b | b in blocks ensures b >= CTL {
        assert BlockOk(blocks, mem.Length, b);
      }
      assert BlockOk(blocks, mem.Length, CTL);
    }

    lemma WalkStep(b: nat)
      requires Consistent() && b in blocks
      ensures Below(blocks, b + blocks[b].total) == Below(blocks, b) + {b}
      ensures FreeBelow(blocks, b + blocks[b].total) == FreeBelow(blocks, b) + (if blocks[b].live then {} else {b})
    {
      forall x | x in blocks ensures x < b + blocks[b].total <==> x < b || x == b {
        assert ApartFrom(blocks, x, b) && BlockOk(blocks, mem.Length, x) && BlockOk(blocks, mem.Length, b);
      }
    }

    lemma WalkEnd()
      requires Consistent()
      ensures freeHead == (if chain == [] then 0 else chain[0]) && freeCount == |chain|
      ensures Below(blocks, mem.Length) == blocks.Keys && |FreeBelow(blocks, mem.Length)| == |chain|
      ensures |Below(blocks, mem.Length)| == |blocks|
    {
      forall b | b in blocks ensures b < mem.Length {
        assert BlockOk(blocks, mem.Length, b);
      }
      assert forall b :: b in FreeBelow(blocks, mem.Length) <==> b in chain;
      forall i, j | 0 <= i < j < |chain| ensures chain[i] != chain[j] {
        assert Far(chain[i], chain[j]);
      }
      DistinctCount(chain, FreeBelow(blocks, mem.Length));
    }
  }
}
