/** The variable-length pool as values (src/storage/var_pool.cpp): the blocks of the region by their
    offset, the words of memory that describe them, and the free list threaded through the payloads.
    Offsets and sizes are in 8-byte words. */
module VarPoolModel {
  import opened Sums

  const CTL: nat := 8        // control block
  const HEADER: nat := 2     // size, then magic and flag
  const MIN_BLOCK: nat := 5  // header, two links, footer
  const ALLOC_TAG: nat := 0x1_564C_5041
  const FREE_TAG: nat := 0x564C_5046

  datatype Block = Block(total: nat, live: bool)

  type Blocks = map<nat, Block>

  predicate ApartFrom(blocks: Blocks, a: nat, b: nat)
    requires a in blocks && b in blocks
  {
    a != b ==> a + blocks[a].total <= b || b + blocks[b].total <= a
  }

  /** Some block ends at e. */
  ghost predicate Ends(blocks: Blocks, e: nat) {
    exists p :: p in blocks && p + blocks[p].total == e
  }

  ghost predicate BlockOk(blocks: Blocks, end: nat, b: nat)
    requires b in blocks
  {
    var e := b + blocks[b].total;
    && CTL <= b && blocks[b].total >= MIN_BLOCK && e <= end
    && (e == end || e in blocks)
    && (b == CTL || Ends(blocks, b))
  }

  /** The blocks tile the region between the control block and the end. */
  ghost predicate Shape(blocks: Blocks, end: nat) {
    && CTL in blocks
    && (forall b {:trigger BlockOk(blocks, end, b)} :: b in blocks ==> BlockOk(blocks, end, b))
    && (forall a, b {:trigger ApartFrom(blocks, a, b)} :: a in blocks && b in blocks ==> ApartFrom(blocks, a, b))
  }

  lemma Outside(blocks: Blocks, end: nat, a: nat, b: nat)
    requires Shape(blocks, end) && a in blocks && b in blocks
    ensures b <= a || a + blocks[a].total <= b
  {
    assert ApartFrom(blocks, a, b) && BlockOk(blocks, end, b);
  }

  lemma SameEnd(blocks: Blocks, end: nat, a: nat, b: nat)
    requires Shape(blocks, end) && a in blocks && b in blocks && a + blocks[a].total == b + blocks[b].total
    ensures a == b
  {
    assert ApartFrom(blocks, a, b) && BlockOk(blocks, end, a) && BlockOk(blocks, end, b);
  }

  predicate Covers(blocks: Blocks, b: nat, w: nat) {
    b in blocks && b <= w < b + blocks[b].total
  }

  /** Every word of the region lies in exactly one block. */
  lemma Tiled(blocks: Blocks, end: nat, w: nat) returns (b: nat)
    requires Shape(blocks, end) && CTL <= w < end
    ensures Covers(blocks, b, w) && forall a :: Covers(blocks, a, w) ==> a == b
  {
    b := CTL;
    while b + blocks[b].total <= w
      invariant b in blocks && b <= w
      decreases w - b
    {
      assert BlockOk(blocks, end, b);
      b := b + blocks[b].total;
    }
    forall a | Covers(blocks, a, w) ensures a == b {
      assert ApartFrom(blocks, a, b);
    }
  }

  function Tag(live: bool): nat {
    if live then ALLOC_TAG else FREE_TAG
  }

  predicate TagOk(mem: seq<nat>, blocks: Blocks, b: nat)
    requires b in blocks
  {
    var t := blocks[b].total;
    t >= MIN_BLOCK && b + t <= |mem| && mem[b] == t && mem[b + 1] == Tag(blocks[b].live) && mem[b + t - 1] == t
  }

  /** Header and footer of every block agree with it. */
  ghost predicate Tags(mem: seq<nat>, blocks: Blocks) {
    forall b {:trigger TagOk(mem, blocks, b)} :: b in blocks ==> TagOk(mem, blocks, b)
  }

  predicate NotBothFree(blocks: Blocks, b: nat)
    requires b in blocks
  {
    var e := b + blocks[b].total;
    e in blocks ==> blocks[b].live || blocks[e].live
  }

  /** No two neighbours are both free. */
  ghost predicate Coalesced(blocks: Blocks) {
    forall b {:trigger NotBothFree(blocks, b)} :: b in blocks ==> NotBothFree(blocks, b)
  }

  // ---- the free list ----

  function PrevOf(chain: seq<nat>, i: nat): nat
    requires i < |chain|
  {
    if i == 0 then 0 else chain[i - 1]
  }

  function NextOf(chain: seq<nat>, i: nat): nat
    requires i < |chain|
  {
    if i + 1 == |chain| then 0 else chain[i + 1]
  }

  predicate LinkOk(mem: seq<nat>, chain: seq<nat>, i: nat)
    requires i < |chain|
  {
    && chain[i] >= CTL && chain[i] + MIN_BLOCK <= |mem|
    && mem[chain[i] + 2] == PrevOf(chain, i) && mem[chain[i] + 3] == NextOf(chain, i)
  }

  predicate Far(a: nat, b: nat) {
    a + MIN_BLOCK <= b || b + MIN_BLOCK <= a
  }

  /** The list as memory holds it, front to back. */
  ghost predicate ChainOk(mem: seq<nat>, head: nat, chain: seq<nat>) {
    && head == (if chain == [] then 0 else chain[0])
    && (forall i {:trigger LinkOk(mem, chain, i)} :: 0 <= i < |chain| ==> LinkOk(mem, chain, i))
    && (forall i, j {:trigger Far(chain[i], chain[j])} :: 0 <= i < |chain| && 0 <= j < |chain| && i != j ==>
      Far(chain[i], chain[j]))
  }

  /** The list holds exactly the free blocks. */
  ghost predicate ListsFree(chain: seq<nat>, blocks: Blocks) {
    forall b :: b in chain <==> b in blocks && !blocks[b].live
  }

  function Without(chain: seq<nat>, i: nat): seq<nat>
    requires i < |chain|
  {
    chain[..i] + chain[i + 1..]
  }

  function Unlinked(mem: seq<nat>, prev: nat, next: nat): seq<nat>
    requires prev + 3 < |mem| && next + 3 < |mem|
  {
    var m := if prev != 0 then mem[prev + 3 := next] else mem;
    if next != 0 then m[next + 2 := prev] else m
  }

  function Linked(mem: seq<nat>, head: nat, b: nat): seq<nat>
    requires b + 3 < |mem| && head + 3 < |mem|
  {
    var m := mem[b + 2 := 0][b + 3 := head];
    if head != 0 then m[head + 2 := b] else m
  }

  lemma UnlinkLink(mem: seq<nat>, head: nat, chain: seq<nat>, i: nat, j: nat)
    requires ChainOk(mem, head, chain) && i < |chain| && j < |chain| - 1
    ensures NextOf(chain, i) + 3 < |mem| && PrevOf(chain, i) + 3 < |mem|
    ensures LinkOk(Unlinked(mem, PrevOf(chain, i), NextOf(chain, i)), Without(chain, i), j)
  {
    var q := if j < i then j else j + 1;
    assert LinkOk(mem, chain, i) && LinkOk(mem, chain, q);
    if i > 0 { assert LinkOk(mem, chain, i - 1); assert q != i - 1 ==> Far(chain[q], chain[i - 1]); }
    if i + 1 < |chain| { assert LinkOk(mem, chain, i + 1); assert q != i + 1 ==> Far(chain[q], chain[i + 1]); }
  }

  /** Unlinking takes one entry out of the list. */
  lemma UnlinkChain(mem: seq<nat>, head: nat, chain: seq<nat>, i: nat)
    requires ChainOk(mem, head, chain) && i < |chain|
    ensures NextOf(chain, i) + 3 < |mem| && PrevOf(chain, i) + 3 < |mem|
    ensures ChainOk(Unlinked(mem, PrevOf(chain, i), NextOf(chain, i)),
                    if i == 0 then NextOf(chain, i) else head, Without(chain, i))
  {
    hide LinkOk, Unlinked;
    UnlinkBounds(mem, head, chain, i);
    forall j | 0 <= j < |chain| - 1
      ensures LinkOk(Unlinked(mem, PrevOf(chain, i), NextOf(chain, i)), Without(chain, i), j)
    {
      UnlinkLink(mem, head, chain, i, j);
    }
  }

  lemma UnlinkBounds(mem: seq<nat>, head: nat, chain: seq<nat>, i: nat)
    requires ChainOk(mem, head, chain) && i < |chain|
    ensures NextOf(chain, i) + 3 < |mem| && PrevOf(chain, i) + 3 < |mem|
    ensures chain[i] + MIN_BLOCK <= |mem| && mem[chain[i] + 2] == PrevOf(chain, i)
      && mem[chain[i] + 3] == NextOf(chain, i)
  {
    assert LinkOk(mem, chain, i);
    if i > 0 { assert LinkOk(mem, chain, i - 1); }
    if i + 1 < |chain| { assert LinkOk(mem, chain, i + 1); }
  }

  /** Linking puts a new entry in front. */
  lemma LinkChain(mem: seq<nat>, head: nat, chain: seq<nat>, b: nat)
    requires ChainOk(mem, head, chain) && CTL <= b && b + MIN_BLOCK <= |mem|
    requires forall i :: 0 <= i < |chain| ==> Far(chain[i], b)
    ensures head + 3 < |mem| && ChainOk(Linked(mem, head, b), b, [b] + chain)
  {
    if chain != [] { assert LinkOk(mem, chain, 0); }
    var m, c := Linked(mem, head, b), [b] + chain;
    forall j | 0 <= j < |c| ensures LinkOk(m, c, j) {
      if j > 0 {
        assert LinkOk(mem, chain, j - 1);
        assert j > 1 ==> Far(chain[0], chain[j - 1]);
      }
    }
  }

  /** Writes outside the links leave the list alone. */
  lemma ChainKept(mem: seq<nat>, mem': seq<nat>, head: nat, chain: seq<nat>)
    requires ChainOk(mem, head, chain) && |mem'| == |mem|
    requires forall i :: 0 <= i < |chain| && chain[i] + 3 < |mem| ==>
               mem'[chain[i] + 2] == mem[chain[i] + 2] && mem'[chain[i] + 3] == mem[chain[i] + 3]
    ensures ChainOk(mem', head, chain)
  {
    forall i | 0 <= i < |chain| ensures LinkOk(mem', chain, i) {
      assert LinkOk(mem, chain, i);
    }
  }

  lemma ChainFar(blocks: Blocks, end: nat, chain: seq<nat>, b: nat)
    requires Shape(blocks, end) && b in blocks && (forall x :: x in chain ==> x in blocks) && b !in chain
    ensures forall i :: 0 <= i < |chain| ==> Far(chain[i], b)
  {
    forall i | 0 <= i < |chain| ensures Far(chain[i], b) {
      assert chain[i] in chain;
      assert ApartFrom(blocks, chain[i], b) && BlockOk(blocks, end, b) && BlockOk(blocks, end, chain[i]);
    }
  }

  lemma WithoutHas(mem: seq<nat>, head: nat, chain: seq<nat>, i: nat, x: nat)
    requires ChainOk(mem, head, chain) && i < |chain|
    ensures x in Without(chain, i) <==> x in chain && x != chain[i]
  {
    var c := Without(chain, i);
    if x in c {
      var j :| 0 <= j < |c| && c[j] == x;
      assert chain[if j < i then j else j + 1] == x;
      assert Far(x, chain[i]);
    }
    if x in chain && x != chain[i] {
      var j :| 0 <= j < |chain| && chain[j] == x;
      assert c[if j < i then j else j - 1] == x;
    }
  }

  // ---- cutting, joining, marking ----

  function Marked(blocks: Blocks, b: nat, live: bool): Blocks
    requires b in blocks
  {
    blocks[b := Block(blocks[b].total, live)]
  }

  /** The front part keeps its offset. */
  function Cut(blocks: Blocks, b: nat, n: nat): Blocks
    requires b in blocks && n <= blocks[b].total
  {
    blocks[b := Block(n, blocks[b].live)][b + n := Block(blocks[b].total - n, blocks[b].live)]
  }

  /** The block at a swallows its right neighbour. */
  function Joined(blocks: Blocks, a: nat): Blocks
    requires a in blocks && a + blocks[a].total in blocks && blocks[a].total > 0
  {
    var b := a + blocks[a].total;
    (blocks - {b})[a := Block(blocks[a].total + blocks[b].total, blocks[a].live)]
  }

  lemma MarkedShape(blocks: Blocks, end: nat, b: nat, live: bool)
    requires Shape(blocks, end) && b in blocks
    ensures Shape(Marked(blocks, b, live), end)
  {
    var t := Marked(blocks, b, live);
    forall x | x in t ensures BlockOk(t, end, x) {
      assert BlockOk(blocks, end, x);
      if x != CTL {
        var p :| p in blocks && p + blocks[p].total == x;
        assert p in t && p + t[p].total == x;
      }
    }
    forall x, y | x in t && y in t ensures ApartFrom(t, x, y) {
      assert ApartFrom(blocks, x, y);
    }
  }

  lemma CutShape(blocks: Blocks, end: nat, b: nat, n: nat)
    requires Shape(blocks, end) && b in blocks && n >= MIN_BLOCK && blocks[b].total - n >= MIN_BLOCK
    ensures b + n !in blocks && Shape(Cut(blocks, b, n), end)
  {
    hide Ends;
    assert BlockOk(blocks, end, b);
    if b + n in blocks { Outside(blocks, end, b, b + n); }
    var t := Cut(blocks, b, n);
    forall x | x in t ensures BlockOk(t, end, x) {
      CutEnds(blocks, end, b, n, x);
    }
    forall x, y | x in t && y in t ensures ApartFrom(t, x, y) {
      assert BlockOk(blocks, end, if x == b + n then b else x);
      assert BlockOk(blocks, end, if y == b + n then b else y);
      assert ApartFrom(blocks, if x == b + n then b else x, if y == b + n then b else y);
    }
  }

  lemma CutEnds(blocks: Blocks, end: nat, b: nat, n: nat, x: nat)
    requires Shape(blocks, end) && b in blocks && n >= MIN_BLOCK && blocks[b].total - n >= MIN_BLOCK
    requires b + n !in blocks && x in Cut(blocks, b, n)
    ensures BlockOk(Cut(blocks, b, n), end, x)
  {
    var t := Cut(blocks, b, n);
    assert BlockOk(blocks, end, b);
    if x == b + n {
      assert b in t && b + t[b].total == x;
    } else {
      assert BlockOk(blocks, end, x);
      if x != CTL {
        var p :| p in blocks && p + blocks[p].total == x;
        var q := if p == b then b + n else p;
        assert q in t && q + t[q].total == x;
      }
    }
  }

  lemma JoinedShape(blocks: Blocks, end: nat, a: nat)
    requires Shape(blocks, end) && a in blocks && a + blocks[a].total in blocks
    ensures blocks[a].total > 0 && Shape(Joined(blocks, a), end)
  {
    hide Ends;
    assert BlockOk(blocks, end, a);
    var b := a + blocks[a].total;
    assert BlockOk(blocks, end, b);
    var t := Joined(blocks, a);
    forall x | x in t ensures BlockOk(t, end, x) {
      JoinedEnds(blocks, end, a, x);
    }
    forall x, y | x in t && y in t ensures ApartFrom(t, x, y) {
      assert ApartFrom(blocks, x, y) && ApartFrom(blocks, x, b) && ApartFrom(blocks, b, y);
      assert BlockOk(blocks, end, x) && BlockOk(blocks, end, y);
    }
  }

  lemma JoinedEnds(blocks: Blocks, end: nat, a: nat, x: nat)
    requires Shape(blocks, end) && a in blocks && a + blocks[a].total in blocks && blocks[a].total > 0
    requires x in Joined(blocks, a)
    ensures BlockOk(Joined(blocks, a), end, x)
  {
    var t := Joined(blocks, a);
    var b := a + blocks[a].total;
    assert BlockOk(blocks, end, a) && BlockOk(blocks, end, b) && BlockOk(blocks, end, x);
    assert ApartFrom(blocks, x, b) && ApartFrom(blocks, x, a);
    if x + blocks[x].total == b { SameEnd(blocks, end, x, a); }
    if x != CTL {
      var p :| p in blocks && p + blocks[p].total == x;
      var q := if p == b then a else p;
      assert q in t && q + t[q].total == x;
    }
  }

  // ---- accounting ----

  ghost function Weights(blocks: Blocks, live: bool): map<nat, nat> {
    map b | b in blocks :: if blocks[b].live == live then blocks[b].total else 0
  }

  /** Words in live (or in free) blocks. */
  ghost function Words(blocks: Blocks, live: bool): nat {
    Sum(Weights(blocks, live))
  }

  function Part(block: Block, live: bool): nat {
    if block.live == live then block.total else 0
  }

  lemma WordsTake(blocks: Blocks, b: nat, live: bool)
    requires b in blocks
    ensures Words(blocks, live) == Part(blocks[b], live) + Words(blocks - {b}, live)
  {
    SumTake(Weights(blocks, live), b);
    assert Weights(blocks, live) - {b} == Weights(blocks - {b}, live);
  }

  lemma WordsSet(blocks: Blocks, b: nat, x: Block, live: bool)
    ensures Words(blocks[b := x], live) == Words(blocks - {b}, live) + Part(x, live)
  {
    WordsTake(blocks[b := x], b, live);
    assert blocks[b := x] - {b} == blocks - {b};
  }

  /** Cutting moves no words between live and free. */
  lemma CutWords(blocks: Blocks, b: nat, n: nat, live: bool)
    requires b in blocks && 0 < n <= blocks[b].total && b + n !in blocks
    ensures Words(Cut(blocks, b, n), live) == Words(blocks, live)
  {
    WordsTake(blocks, b, live);
    var one := blocks[b := Block(n, blocks[b].live)];
    WordsSet(blocks, b, Block(n, blocks[b].live), live);
    WordsSet(one, b + n, Block(blocks[b].total - n, blocks[b].live), live);
    assert one - {b + n} == one;
  }

  lemma JoinedWords(blocks: Blocks, a: nat, live: bool)
    requires a in blocks && blocks[a].total > 0 && a + blocks[a].total in blocks
    requires blocks[a + blocks[a].total].live == blocks[a].live
    ensures Words(Joined(blocks, a), live) == Words(blocks, live)
  {
    var b := a + blocks[a].total;
    WordsTake(blocks, b, live);
    WordsTake(blocks - {b}, a, live);
    WordsSet(blocks - {b}, a, Block(blocks[a].total + blocks[b].total, blocks[a].live), live);
  }

  lemma MarkedWords(blocks: Blocks, b: nat, live: bool, side: bool)
    requires b in blocks && blocks[b].live != live
    ensures Words(Marked(blocks, b, live), side)
         == if side == live then Words(blocks, side) + blocks[b].total else Words(blocks, side) - blocks[b].total
    ensures side != live ==> Words(blocks, side) >= blocks[b].total
  {
    WordsTake(blocks, b, side);
    WordsSet(blocks, b, Block(blocks[b].total, live), side);
  }

  ghost function LiveSet(blocks: Blocks): set<nat> {
    set b | b in blocks && blocks[b].live
  }

  // ---- one consistent pool ----

  ghost predicate PoolOk(mem: seq<nat>, head: nat, blocks: Blocks, chain: seq<nat>) {
    && Shape(blocks, |mem|) && Tags(mem, blocks) && Coalesced(blocks)
    && ChainOk(mem, head, chain) && ListsFree(chain, blocks)
  }

  /** The memories differ in the payload of block b only. */
  predicate OnlyPayload(mem: seq<nat>, mem': seq<nat>, blocks: Blocks, b: nat) {
    && |mem'| == |mem| && b in blocks
    && forall w :: 0 <= w < |mem| && !(b + HEADER <= w < b + blocks[b].total - 1) ==> mem'[w] == mem[w]
  }

  /** Whatever an owner writes into its payload, tags and free list stay as they are. */
  lemma PayloadKeeps(mem: seq<nat>, mem': seq<nat>, head: nat, blocks: Blocks, chain: seq<nat>, b: nat)
    requires PoolOk(mem, head, blocks, chain) && b in blocks && blocks[b].live && OnlyPayload(mem, mem', blocks, b)
    ensures PoolOk(mem', head, blocks, chain)
    ensures forall a, w :: a in blocks && a != b && a <= w < a + blocks[a].total && w < |mem| ==> mem'[w] == mem[w]
  {
    hide Coalesced;
    forall a | a in blocks ensures TagOk(mem', blocks, a) {
      assert TagOk(mem, blocks, a) && TagOk(mem, blocks, b) && ApartFrom(blocks, a, b);
    }
    forall i | 0 <= i < |chain| ensures LinkOk(mem', chain, i) {
      var a := chain[i];
      assert LinkOk(mem, chain, i) && a in chain;
      assert TagOk(mem, blocks, a) && ApartFrom(blocks, a, b);
    }
    forall a, w | a in blocks && a != b && a <= w < a + blocks[a].total && w < |mem| ensures mem'[w] == mem[w] {
      assert ApartFrom(blocks, a, b) && BlockOk(blocks, |mem|, a);
    }
  }

  /** Writing the header and the footer of a block. */
  function Stamp(mem: seq<nat>, b: nat, total: nat, live: bool): seq<nat>
    requires total >= MIN_BLOCK && b + total <= |mem|
  {
    mem[b := total][b + 1 := Tag(live)][b + total - 1 := total]
  }

  /** The tags agree except for the blocks in `open`. */
  ghost predicate TagsBut(mem: seq<nat>, blocks: Blocks, open: set<nat>) {
    forall b {:trigger TagOk(mem, blocks, b)} :: b in blocks && b !in open ==> TagOk(mem, blocks, b)
  }

  lemma StampTags(mem: seq<nat>, blocks: Blocks, open: set<nat>, b: nat)
    requires Shape(blocks, |mem|) && TagsBut(mem, blocks, open) && b in blocks
    ensures blocks[b].total >= MIN_BLOCK && b + blocks[b].total <= |mem|
    ensures TagsBut(Stamp(mem, b, blocks[b].total, blocks[b].live), blocks, open - {b})
  {
    assert BlockOk(blocks, |mem|, b);
    var m := Stamp(mem, b, blocks[b].total, blocks[b].live);
    forall x | x in blocks && x !in open - {b} ensures TagOk(m, blocks, x) {
      if x != b {
        assert TagOk(mem, blocks, x) && ApartFrom(blocks, x, b);
      }
    }
  }

  lemma StampChain(mem: seq<nat>, blocks: Blocks, head: nat, chain: seq<nat>, b: nat)
    requires Shape(blocks, |mem|) && ChainOk(mem, head, chain) && b in blocks
    requires forall x :: x in chain ==> x in blocks
    ensures blocks[b].total >= MIN_BLOCK && b + blocks[b].total <= |mem|
    ensures ChainOk(Stamp(mem, b, blocks[b].total, blocks[b].live), head, chain)
  {
    assert BlockOk(blocks, |mem|, b);
    var m := Stamp(mem, b, blocks[b].total, blocks[b].live);
    forall i | 0 <= i < |chain| && chain[i] + 3 < |mem|
      ensures m[chain[i] + 2] == mem[chain[i] + 2] && m[chain[i] + 3] == mem[chain[i] + 3]
    {
      assert chain[i] in chain;
      assert ApartFrom(blocks, chain[i], b) && BlockOk(blocks, |mem|, chain[i]);
    }
    ChainKept(mem, m, head, chain);
  }

  predicate NullOrBlock(blocks: Blocks, x: nat) {
    x == 0 || x in blocks
  }

  /** Links are not tag words. */
  lemma UnlinkedTags(mem: seq<nat>, blocks: Blocks, open: set<nat>, prev: nat, next: nat)
    requires Shape(blocks, |mem|) && TagsBut(mem, blocks, open)
    requires NullOrBlock(blocks, prev) && NullOrBlock(blocks, next) && prev + 3 < |mem| && next + 3 < |mem|
    ensures TagsBut(Unlinked(mem, prev, next), blocks, open)
  {
    var m := Unlinked(mem, prev, next);
    forall x | x in blocks && x !in open ensures TagOk(m, blocks, x) {
      assert TagOk(mem, blocks, x);
      if prev != 0 { assert ApartFrom(blocks, x, prev) && BlockOk(blocks, |mem|, prev); }
      if next != 0 { assert ApartFrom(blocks, x, next) && BlockOk(blocks, |mem|, next); }
    }
  }

  lemma LinkedTags(mem: seq<nat>, blocks: Blocks, open: set<nat>, head: nat, b: nat)
    requires Shape(blocks, |mem|) && TagsBut(mem, blocks, open)
    requires b in blocks && NullOrBlock(blocks, head) && b + 3 < |mem| && head + 3 < |mem|
    ensures TagsBut(Linked(mem, head, b), blocks, open)
  {
    var m := Linked(mem, head, b);
    forall x | x in blocks && x !in open ensures TagOk(m, blocks, x) {
      assert TagOk(mem, blocks, x) && ApartFrom(blocks, x, b) && BlockOk(blocks, |mem|, b);
      if head != 0 { assert ApartFrom(blocks, x, head) && BlockOk(blocks, |mem|, head); }
    }
  }

  /** The words of a block are the same in both memories. */
  predicate Untouched(mem: seq<nat>, mem': seq<nat>, blocks: Blocks, x: nat) {
    && x in blocks && |mem'| == |mem| && x + blocks[x].total <= |mem|
    && mem'[x..x + blocks[x].total] == mem[x..x + blocks[x].total]
  }

  lemma StampUntouched(mem: seq<nat>, blocks: Blocks, b: nat, n: nat, live: bool, x: nat, from: nat)
    requires Shape(blocks, |mem|) && b in blocks && x in blocks && x != b
    requires n >= MIN_BLOCK && b <= from && from + n <= b + blocks[b].total
    ensures from + n <= |mem| && Untouched(mem, Stamp(mem, from, n, live), blocks, x)
  {
    assert ApartFrom(blocks, x, b) && BlockOk(blocks, |mem|, b) && BlockOk(blocks, |mem|, x);
    var m := Stamp(mem, from, n, live);
    assert forall w :: x <= w < x + blocks[x].total ==> m[w] == mem[w];
  }

  lemma UnlinkedUntouched(mem: seq<nat>, blocks: Blocks, prev: nat, next: nat, x: nat)
    requires Shape(blocks, |mem|) && x in blocks && x != prev && x != next
    requires NullOrBlock(blocks, prev) && NullOrBlock(blocks, next) && prev + 3 < |mem| && next + 3 < |mem|
    ensures Untouched(mem, Unlinked(mem, prev, next), blocks, x)
  {
    assert BlockOk(blocks, |mem|, x);
    if prev != 0 { assert ApartFrom(blocks, x, prev) && BlockOk(blocks, |mem|, prev); }
    if next != 0 { assert ApartFrom(blocks, x, next) && BlockOk(blocks, |mem|, next); }
    var m := Unlinked(mem, prev, next);
    assert forall w :: x <= w < x + blocks[x].total ==> m[w] == mem[w];
  }

  /** Linking writes inside the new entry's block and inside the old head. */
  lemma LinkedUntouched(mem: seq<nat>, blocks: Blocks, head: nat, b: nat, at: nat, x: nat)
    requires Shape(blocks, |mem|) && x in blocks && x != b && x != head && b in blocks
    requires b <= at && at + MIN_BLOCK <= b + blocks[b].total
    requires NullOrBlock(blocks, head) && head + 3 < |mem|
    ensures at + 3 < |mem| && Untouched(mem, Linked(mem, head, at), blocks, x)
  {
    assert BlockOk(blocks, |mem|, x) && ApartFrom(blocks, x, b) && BlockOk(blocks, |mem|, b);
    if head != 0 { assert ApartFrom(blocks, x, head) && BlockOk(blocks, |mem|, head); }
    var m := Linked(mem, head, at);
    assert forall w :: x <= w < x + blocks[x].total ==> m[w] == mem[w];
  }
}
