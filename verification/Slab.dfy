/** The slab allocator over its memory (src/infra/slab_allocator.cpp). `mem` is the mapping in 8-byte
    words; the control block's fields are fields here. `cells` and `lists` exist only for the proof. */
module Slab {
  import opened Errors
  import opened SlabModel

  /** The smallest class that holds the size. */
  ghost predicate SmallestClass(size: nat, c: nat) {
    c < CLASSES && size <= ClassSize(c) && (c > 0 ==> ClassSize(c - 1) < size)
  }

  lemma ClassEdge()
    ensures ClassSize(11) == 65536
  {
  }

  lemma PermanentCell(bump: nat, off: nat, size: nat)
    requires bump + HDR <= off && off % PAGE == 0 && size > 0 && DATA_START <= bump
    ensures CellOk(map[off := Cell(CLASSES, size, bump, Permanent)], off + size, off) && off % 8 == 0
  {
    MultipleOf8(off, PAGE);
  }

  class Allocator {
    const mem: array<nat>
    const dataEnd: nat
    var bump: nat
    var carved: nat
    const freeHeads: array<nat>
    ghost var cells: Cells
    ghost var lists: seq<seq<nat>>

    ghost predicate Valid()
      reads this, mem, freeHeads
    {
      && mem != freeHeads && freeHeads.Length == CLASSES && dataEnd <= 8 * mem.Length && bump <= dataEnd
      && SlabOk(mem[..], freeHeads[..], cells, lists, bump)
      && carved == Bytes(cells, false)
      && bump - DATA_START == Bytes(cells, true)
    }

    /** What owners write into their user parts does not disturb the allocator. */
    twostate lemma OwnersWrite(o: nat)
      requires old(Valid()) && o in old(cells) && old(cells)[o].kind != Free
      requires freeHeads[..] == old(freeHeads[..])
      requires cells == old(cells) && lists == old(lists) && bump == old(bump)
      requires carved == old(carved) && OnlyUser(old(mem[..]), mem[..], cells, o)
      ensures Valid()
    {
      UserKeeps(old(mem[..]), mem[..], freeHeads[..], cells, lists, bump, o);
    }

    /** Attaching to a fresh mapping: nothing cut, all lists empty. */
    constructor Create(region: array<nat>, mapSize: nat)
      requires mapSize >= DATA_START && AlignUp(mapSize, PAGE) <= 8 * region.Length
      ensures mem == region && Valid() && fresh(freeHeads) && cells == map[] && bump == DATA_START
      ensures dataEnd == AlignUp(mapSize, PAGE) && mem[..] == old(region[..])
    {
      mem := region;
      dataEnd := AlignUp(mapSize, PAGE);
      bump, carved := DATA_START, 0;
      freeHeads := new nat[CLASSES](_ => 0);
      cells, lists := map[], seq(CLASSES, _ => []);
      Aligned(mapSize, PAGE);
      new;
      assert forall c :: 0 <= c < CLASSES ==> ListHeld(mem[..], freeHeads[..][c], lists[c]);
      assert Spans(cells, true) == map[] && Spans(cells, false) == map[];
    }

    static method SizeToClass(size: nat) returns (c: nat)
      requires 0 < size <= 65536
      ensures SmallestClass(size, c)
    {
      ClassEdge();
      c := 0;
      while ClassSize(c) < size && c < CLASSES - 1
        invariant c < CLASSES && (c > 0 ==> ClassSize(c - 1) < size)
      {
        c := c + 1;
      }
    }

    predicate OwnsOffset(off: nat)
      reads this
    {
      off >= DATA_START + HDR && off + 8 <= dataEnd && off % 8 == 0
    }

    ghost predicate UsersKept(before: seq<nat>, was: Cells, except: nat)
      reads this, mem
    {
      forall x :: x in was && was[x].kind != Free && x != except ==> SameUser(before, mem[..], was, x)
    }

    /** Where the next cell of this size would start. */
    function NextOffset(align: nat): nat
      requires align > 0
      reads this
    {
      AlignUp(bump + HDR, align)
    }

    method Allocate(size: nat) returns (r: Result<nat>)
      requires Valid()
      modifies this, mem, freeHeads
      ensures Valid()
      ensures size == 0 || size > 65536 ==> r == Failure(Unsupported)
      ensures r.Failure? ==> mem[..] == old(mem[..]) && cells == old(cells) && bump == old(bump) && lists == old(lists)
      ensures 0 < size <= 65536 ==> exists c: nat :: (
        && SmallestClass(size, c)
        && (if old(lists)[c] != [] then r == Success(old(lists)[c][0]) && bump == old(bump)
            else if old(NextOffset(ClassSize(c))) + ClassSize(c) > dataEnd then r == Failure(OutOfMemory)
            else r == Success(old(NextOffset(ClassSize(c)))) && bump == r.value + ClassSize(c))
        && (r.Success? ==> r.value in cells && cells[r.value].cls == c))
      ensures r.Success? ==>
        && (r.value in old(cells) ==> old(cells)[r.value].kind == Free)
        && r.value in cells && cells == old(cells)[r.value := cells[r.value]]
        && cells[r.value].kind == Live && cells[r.value].size >= size
        && UsersKept(old(mem[..]), old(cells), 0)
    {
      hide SlabOk, Bytes, SameUser;
      if size == 0 || size > 65536 { return Failure(Unsupported); }
      var c := SizeToClass(size);
      if freeHeads[c] != 0 {
        var o := TakeHead(c);
        return Success(o);
      }
      NoHead(c);
      r := CutCell(c);
    }

    lemma NoHead(c: nat)
      requires Valid() && c < CLASSES
      ensures |lists| == CLASSES && (freeHeads[c] == 0 <==> lists[c] == [])
    {
      hide Bytes;
      assert ListHeld(mem[..], freeHeads[..][c], lists[c]);
      if lists[c] != [] { assert NextIs(mem[..], lists[c], 0); }
    }

    lemma CellFacts(o: nat)
      requires Valid() && o in cells
      ensures CellOk(cells, bump, o) && HeadOk(mem[..], cells, o) && (cells[o].kind == Live ==> o / 8 < mem.Length)
      ensures HDR <= o && o / 8 <= mem.Length && mem[o / 8 - 2] % TWO32 == cells[o].cls <= CLASSES
      ensures cells[o].start <= o + cells[o].size && mem[o / 8 - 1] == Span(o, cells[o])
      ensures cells[o].kind != Permanent ==> cells[o].cls < CLASSES
    {
      hide Bytes;
      assert CellOk(cells, bump, o) && HeadOk(mem[..], cells, o);
    }

    /** Pops the head of a free list. */
    method TakeHead(c: nat) returns (o: nat)
      requires Valid() && c < CLASSES && freeHeads[c] != 0
      modifies this, mem, freeHeads
      ensures Valid() && bump == old(bump)
      ensures |old(lists)| == CLASSES && old(lists)[c] != [] && o == old(lists)[c][0]
      ensures o in old(cells) && old(cells)[o].kind == Free && old(cells)[o].cls == c
      ensures cells == old(cells)[o := old(cells)[o].(kind := Live)]
      ensures cells[o].size == ClassSize(c)
      ensures UsersKept(old(mem[..]), old(cells), 0)
    {
      hide SameUser, Bytes, Layout, Heads;
      NoHead(c);
      o := freeHeads[c];
      assert ListHeld(mem[..], freeHeads[..][c], lists[c]) && o in lists[c];
      assert NextIs(mem[..], lists[c], 0);
      CellFacts(o);
      ghost var m0: seq<nat>, h0: seq<nat>, c0, l0 := mem[..], freeHeads[..], cells, lists;
      freeHeads[c] := mem[o / 8];
      carved := carved + mem[o / 8 - 1];
      mem[o / 8 - 2] := HeadWord(c, MAGIC);
      cells := cells[o := cells[o].(kind := Live)];
      lists := lists[c := lists[c][1..]];
      assert freeHeads[..] == h0[c := m0[o / 8]];
      ReuseKeeps(m0, mem[..], h0, c0, l0, bump, c);
      BytesSet(c0, o, cells[o], true);
      BytesSet(c0, o, cells[o], false);
    }

    /** Cuts a cell from the unused area. */
    method CutCell(c: nat) returns (r: Result<nat>)
      requires Valid() && c < CLASSES
      modifies this, mem
      ensures Valid() && lists == old(lists)
      ensures r.Failure? ==> mem[..] == old(mem[..]) && cells == old(cells) && bump == old(bump)
      ensures if old(NextOffset(ClassSize(c))) + ClassSize(c) > dataEnd then r == Failure(OutOfMemory)
              else r == Success(old(NextOffset(ClassSize(c))))
      ensures r.Success? ==>
        && r.value !in old(cells) && bump == r.value + ClassSize(c)
        && cells == old(cells)[r.value := Cell(c, ClassSize(c), old(bump), Live)]
        && UsersKept(old(mem[..]), old(cells), 0)
    {
      hide SameUser, Bytes, Layout, Heads, ListHeld, ListsFree, SlabOk, AlignUp;
      var size := ClassSize(c);
      var off := AlignUp(bump + HDR, size);
      Aligned(bump + HDR, size);
      MultipleOf8(off, size);
      if off + size > dataEnd { return Failure(OutOfMemory); }
      ghost var m0: seq<nat>, c0, b0 := mem[..], cells, bump;
      var span: nat := off + size - bump;
      bump := off + size;
      carved := carved + span;
      mem[off / 8 - 1] := span;
      mem[off / 8 - 2] := HeadWord(c, MAGIC);
      ghost var cell := Cell(c, size, b0, Live);
      FirstBump(m0, c0, b0);
      CutKeeps(m0, mem[..], freeHeads[..], c0, lists, b0, off, cell);
      BytesSet(c0, off, cell, true);
      BytesSet(c0, off, cell, false);
      cells := cells[off := cell];
      return Success(off);
    }

    lemma FirstBump(m: seq<nat>, was: Cells, b: nat)
      requires SlabOk(m, freeHeads[..], was, lists, b)
      ensures DATA_START <= b
    {
    }

    /** Whatever was handed out is recognised when it comes back. */
    lemma LiveOwned(o: nat)
      requires Valid() && o in cells && cells[o].kind == Live
      ensures OwnsOffset(o)
    {
      hide Bytes;
      CellFacts(o);
    }

    method Deallocate(off: nat) returns (e: Err)
      requires Valid()
      requires OwnsOffset(off) && mem[off / 8 - 2] / TWO32 == MAGIC ==> off in cells
      modifies this, mem, freeHeads
      ensures Valid() && bump == old(bump)
      ensures e == Ok <==> off in old(cells) && old(cells)[off].kind == Live
      ensures e == InvalidArgument <==> off < DATA_START + HDR || off + 8 > dataEnd || off % 8 != 0
      ensures e == Ok || e == InvalidArgument || e == Internal
      ensures e != Ok ==> mem[..] == old(mem[..]) && cells == old(cells) && lists == old(lists)
      ensures e == Ok ==> cells == old(cells)[off := old(cells)[off].(kind := Free)]
      ensures e == Ok ==> UsersKept(old(mem[..]), old(cells), off)
    {
      hide SlabOk, Bytes, SameUser, UsersKept;
      if off in cells && cells[off].kind == Live { LiveOwned(off); }
      if !OwnsOffset(off) { return InvalidArgument; }
      if off in cells { CellFacts(off); BytesCover(cells, off, false); }
      var head, span := mem[off / 8 - 2], mem[off / 8 - 1];
      if head / TWO32 != MAGIC || head % TWO32 >= CLASSES { return Internal; }
      if span == 0 || span > carved { return Internal; }
      PutBack(off);
      return Ok;
    }

    /** Pushes a live cell onto its list. */
    method PutBack(off: nat)
      requires Valid() && off in cells && cells[off].kind == Live
      modifies this, mem, freeHeads
      ensures Valid() && bump == old(bump)
      ensures cells == old(cells)[off := old(cells)[off].(kind := Free)]
      ensures UsersKept(old(mem[..]), old(cells), off)
    {
      hide SameUser, Bytes, Layout, Heads, ListHeld, ListsFree, SlabOk, HeadWord, CellOk, HeadOk;
      CellFacts(off);
      BytesCover(cells, off, false);
      ListCount();
      ghost var m0: seq<nat>, h0: seq<nat>, c0, l0 := mem[..], freeHeads[..], cells, lists;
      var c := mem[off / 8 - 2] % TWO32;
      mem[off / 8 - 2] := HeadWord(c, POISON);
      carved := carved - mem[off / 8 - 1];
      mem[off / 8] := freeHeads[c];
      freeHeads[c] := off;
      cells := cells[off := cells[off].(kind := Free)];
      lists := lists[c := [off] + lists[c]];
      assert freeHeads[..] == h0[c := off];
      assert mem[..] == m0[off / 8 - 2 := HeadWord(c, POISON)][off / 8 := h0[c]];
      FreeKeeps(m0, mem[..], h0, c0, l0, bump, off);
      BytesSet(c0, off, cells[off], true);
      BytesSet(c0, off, cells[off], false);
    }

    lemma ListCount()
      requires Valid()
      ensures |lists| == CLASSES
    {
      hide Bytes;
    }

    /** A page-aligned area that is never given back. */
    method ReservePermanent(size: nat) returns (r: Result<nat>)
      requires Valid()
      modifies this, mem
      ensures Valid() && lists == old(lists)
      ensures r.Failure? ==> mem[..] == old(mem[..]) && cells == old(cells) && bump == old(bump)
      ensures if size == 0 then r == Failure(InvalidArgument)
              else if old(NextOffset(PAGE)) + size > dataEnd then r == Failure(OutOfMemory)
              else r == Success(old(NextOffset(PAGE)))
      ensures r.Success? ==>
        && r.value !in old(cells) && bump == r.value + size
        && cells == old(cells)[r.value := Cell(CLASSES, size, old(bump), Permanent)]
        && UsersKept(old(mem[..]), old(cells), 0)
    {
      hide SameUser, Bytes, Layout, Heads, ListHeld, ListsFree, SlabOk, AlignUp, CellOk, HeadWord;
      if size == 0 { return Failure(InvalidArgument); }
      var off := AlignUp(bump + HDR, PAGE);
      Aligned(bump + HDR, PAGE);
      if off > dataEnd || size > dataEnd - off { return Failure(OutOfMemory); }
      ghost var m0: seq<nat>, c0, b0 := mem[..], cells, bump;
      var span: nat := off + size - bump;
      bump := off + size;
      carved := carved + span;
      mem[off / 8 - 2] := HeadWord(CLASSES, MAGIC);
      mem[off / 8 - 1] := span;
      ghost var cell := Cell(CLASSES, size, b0, Permanent);
      FirstBump(m0, c0, b0);
      PermanentCell(b0, off, size);
      assert mem[..] == m0[off / 8 - 1 := span][off / 8 - 2 := HeadWord(CLASSES, MAGIC)];
      CutKeeps(m0, mem[..], freeHeads[..], c0, lists, b0, off, cell);
      BytesSet(c0, off, cell, true);
      BytesSet(c0, off, cell, false);
      cells := cells[off := cell];
      return Success(off);
    }
  }
}
