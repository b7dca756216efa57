/** The slab allocator as values (src/infra/slab_allocator.cpp): the cells cut from the data area, by the
    offset handed to the user, and the words of memory that describe them. Offsets are in bytes, memory
    is in 8-byte words. */
module SlabModel {
  import opened Arith
  import opened Sums

  const CLASSES: nat := 12
  const HDR: nat := 16
  const DATA_START: nat := 8192
  const PAGE: nat := 4096
  const MAGIC: nat := 0x4C42_4442
  const POISON: nat := 0x161E_1E18  // MAGIC ^ 0x5A5A5A5A
  const TWO32: nat := 0x1_0000_0000

  datatype Kind = Live | Free | Permanent

  /** A cell reaches from `start`, where the unused area began when it was cut, to the end of its user part. */
  datatype Cell = Cell(cls: nat, size: nat, start: nat, kind: Kind)

  type Cells = map<nat, Cell>

  function ClassSize(c: nat): (s: nat)
    ensures s >= 32 && s % 8 == 0
  {
    if c == 0 then 32 else 2 * ClassSize(c - 1)
  }

  function AlignUp(v: nat, a: nat): (r: nat)
    requires a > 0
  {
    (v + a - 1) / a * a
  }

  lemma Aligned(v: nat, a: nat)
    requires a > 0
    ensures v <= AlignUp(v, a) < v + a && AlignUp(v, a) % a == 0
  {
    var q := (v + a - 1) / a;
    assert q * a + (v + a - 1) % a == v + a - 1;
    MultipleMod(q, a);
  }

  /** Alignment to a multiple of 8 is alignment to 8. */
  lemma MultipleOf8(v: nat, a: nat)
    requires a > 0 && a % 8 == 0 && v % a == 0
    ensures v % 8 == 0
  {
    var q, k := v / a, a / 8;
    assert v == q * a && a == 8 * k;
    assert v == (q * k) * 8;
    MultipleMod(q * k, 8);
  }

  function HeadWord(cls: nat, magic: nat): nat {
    cls + magic * TWO32
  }

  function Span(o: nat, cell: Cell): nat
    requires cell.start <= o + cell.size
  {
    o + cell.size - cell.start
  }

  predicate CellOk(cells: Cells, bump: nat, o: nat)
    requires o in cells
  {
    var c := cells[o];
    && DATA_START <= c.start && c.start + HDR <= o && o % 8 == 0 && o + c.size <= bump && c.size > 0
    && (c.kind == Permanent ==> c.cls == CLASSES && o % PAGE == 0)
    && (c.kind != Permanent ==> c.cls < CLASSES && c.size == ClassSize(c.cls) && o % c.size == 0)
  }

  predicate CellsApart(cells: Cells, a: nat, b: nat)
    requires a in cells && b in cells
  {
    a != b ==> a + cells[a].size <= cells[b].start || b + cells[b].size <= cells[a].start
  }

  ghost predicate Layout(cells: Cells, bump: nat) {
    && DATA_START <= bump
    && (forall o {:trigger CellOk(cells, bump, o)} :: o in cells ==> CellOk(cells, bump, o))
    && (forall a, b {:trigger CellsApart(cells, a, b)} :: a in cells && b in cells ==> CellsApart(cells, a, b))
  }

  lemma BelowBump(cells: Cells, bump: nat, o: nat)
    requires Layout(cells, bump) && o in cells
    ensures o < bump && 0 < o
  {
    assert CellOk(cells, bump, o);
  }

  predicate HeadOk(mem: seq<nat>, cells: Cells, o: nat)
    requires o in cells
  {
    var c := cells[o];
    && HDR <= o && c.start <= o + c.size && o / 8 <= |mem|
    && mem[o / 8 - 2] == HeadWord(c.cls, if c.kind == Free then POISON else MAGIC)
    && mem[o / 8 - 1] == Span(o, c)
  }

  ghost predicate Heads(mem: seq<nat>, cells: Cells) {
    forall o {:trigger HeadOk(mem, cells, o)} :: o in cells ==> HeadOk(mem, cells, o)
  }

  predicate NextIs(mem: seq<nat>, list: seq<nat>, i: nat)
    requires i < |list|
  {
    list[i] > 0 && list[i] / 8 < |mem| && mem[list[i] / 8] == if i + 1 == |list| then 0 else list[i + 1]
  }

  predicate Differ(list: seq<nat>, i: nat, j: nat)
    requires i < |list| && j < |list|
  {
    i != j ==> list[i] != list[j]
  }

  /** A free list as memory holds it: ends, and visits no cell twice. */
  ghost predicate ListHeld(mem: seq<nat>, head: nat, list: seq<nat>) {
    && head == (if list == [] then 0 else list[0])
    && (forall i {:trigger NextIs(mem, list, i)} :: 0 <= i < |list| ==> NextIs(mem, list, i))
    && (forall i, j {:trigger Differ(list, i, j)} :: 0 <= i < |list| && 0 <= j < |list| ==> Differ(list, i, j))
  }

  /** Each list holds exactly the free cells of its class. */
  ghost predicate ListsFree(lists: seq<seq<nat>>, cells: Cells) {
    && |lists| == CLASSES
    && forall o, c :: 0 <= c < CLASSES ==> (o in lists[c] <==> o in cells && cells[o].kind == Free && cells[o].cls == c)
  }

  ghost predicate SlabOk(mem: seq<nat>, heads: seq<nat>, cells: Cells, lists: seq<seq<nat>>, bump: nat) {
    && bump <= 8 * |mem| && Layout(cells, bump) && Heads(mem, cells) && ListsFree(lists, cells) && |heads| == CLASSES
    && forall c {:trigger ListHeld(mem, heads[c], lists[c])} :: 0 <= c < CLASSES ==> ListHeld(mem, heads[c], lists[c])
  }

  /** The user part of cell o reads the same in both memories. */
  ghost predicate SameUser(mem: seq<nat>, mem': seq<nat>, cells: Cells, o: nat) {
    && |mem'| == |mem| && o in cells
    && forall w :: 0 <= w < |mem| && o <= 8 * w && 8 * w + 8 <= o + cells[o].size ==> mem'[w] == mem[w]
  }

  /** The memories differ only in words that the cell's user part reaches into. */
  predicate OnlyUser(mem: seq<nat>, mem': seq<nat>, cells: Cells, o: nat) {
    && |mem'| == |mem| && o in cells
    && forall w :: 0 <= w < |mem| && !(o <= 8 * w < o + cells[o].size) ==> mem'[w] == mem[w]
  }

  /** Whatever an owner writes into its cell, headers and free lists stay as they are, and so do the other cells. */
  lemma UserKeeps(mem: seq<nat>, m': seq<nat>, heads: seq<nat>, cells: Cells, lists: seq<seq<nat>>, bump: nat, o: nat)
    requires SlabOk(mem, heads, cells, lists, bump) && o in cells && cells[o].kind != Free
    requires OnlyUser(mem, m', cells, o)
    ensures SlabOk(m', heads, cells, lists, bump)
    ensures forall x :: x in cells && x != o ==> SameUser(mem, m', cells, x)
  {
    assert CellOk(cells, bump, o);
    forall x | x in cells ensures HeadOk(m', cells, x) && (x != o ==> SameUser(mem, m', cells, x)) {
      assert HeadOk(mem, cells, x) && CellOk(cells, bump, x) && CellsApart(cells, x, o);
    }
    forall c | 0 <= c < CLASSES ensures ListHeld(m', heads[c], lists[c]) {
      assert ListHeld(mem, heads[c], lists[c]);
      forall i | 0 <= i < |lists[c]| ensures NextIs(m', lists[c], i) {
        var x := lists[c][i];
        assert NextIs(mem, lists[c], i) && x in lists[c];
        assert CellOk(cells, bump, x) && CellsApart(cells, x, o);
      }
      forall i, j | 0 <= i < |lists[c]| && 0 <= j < |lists[c]| ensures Differ(lists[c], i, j) {
        assert Differ(lists[c], i, j);
      }
    }
  }

  // ---- the account ----

  ghost function Spans(cells: Cells, freeToo: bool): map<nat, nat> {
    map o | o in cells :: if (freeToo || cells[o].kind != Free) && cells[o].start <= o + cells[o].size
                          then Span(o, cells[o]) else 0
  }

  /** Bytes of all cells ever cut, or of those not in a free list. */
  ghost function Bytes(cells: Cells, freeToo: bool): nat {
    Sum(Spans(cells, freeToo))
  }

  function Share(o: nat, c: Cell, freeToo: bool): nat {
    if (freeToo || c.kind != Free) && c.start <= o + c.size then Span(o, c) else 0
  }

  lemma BytesSet(cells: Cells, o: nat, c: Cell, freeToo: bool)
    ensures Bytes(cells[o := c], freeToo) == Bytes(cells, freeToo) + Share(o, c, freeToo)
                                             - (if o in cells then Share(o, cells[o], freeToo) else 0)
  {
    assert Spans(cells[o := c], freeToo) == Spans(cells, freeToo)[o := Share(o, c, freeToo)];
    SumSet(Spans(cells, freeToo), o, Share(o, c, freeToo));
    if o in cells {
      SumTake(Spans(cells, freeToo), o);
    } else {
      assert Spans(cells, freeToo) - {o} == Spans(cells, freeToo);
    }
  }

  /** A cell in the account is in it with its span. */
  lemma BytesCover(cells: Cells, o: nat, freeToo: bool)
    requires o in cells
    ensures Bytes(cells, freeToo) >= Share(o, cells[o], freeToo)
  {
    SumTake(Spans(cells, freeToo), o);
  }

  // ---- the three operations ----

  /** A new cell at the bump pointer. */
  lemma CutKeeps(mem: seq<nat>, m': seq<nat>, heads: seq<nat>, cells: Cells, lists: seq<seq<nat>>, bump: nat, o: nat,
      c: Cell)
    requires SlabOk(mem, heads, cells, lists, bump)
    requires c.start == bump && c.kind != Free && bump + HDR <= o && c.size > 0 && o + c.size <= 8 * |mem|
    requires CellOk(map[o := c], o + c.size, o)
    requires m' == mem[o / 8 - 1 := Span(o, c)][o / 8 - 2 := HeadWord(c.cls, MAGIC)]
    ensures o !in cells && SlabOk(m', heads, cells[o := c], lists, o + c.size)
    ensures forall x :: x in cells && cells[x].kind != Free ==> SameUser(mem, m', cells, x)
  {
    var d := cells[o := c];
    if o in cells { BelowBump(cells, bump, o); }
    forall x | x in d ensures CellOk(d, o + c.size, x) && HeadOk(m', d, x) {
      assert CellOk(map[o := c], o + c.size, o);
      if x != o {
        assert CellOk(cells, bump, x) && HeadOk(mem, cells, x);
      }
    }
    forall a, b | a in d && b in d ensures CellsApart(d, a, b) {
      if a in cells { assert CellOk(cells, bump, a); }
      if b in cells { assert CellOk(cells, bump, b); }
      if a in cells && b in cells { assert CellsApart(cells, a, b); }
    }
    forall q | 0 <= q < CLASSES ensures ListHeld(m', heads[q], lists[q]) {
      assert ListHeld(mem, heads[q], lists[q]);
      forall i | 0 <= i < |lists[q]| ensures NextIs(m', lists[q], i) {
        assert NextIs(mem, lists[q], i) && lists[q][i] in lists[q];
        assert CellOk(cells, bump, lists[q][i]);
      }
      forall i, j | 0 <= i < |lists[q]| && 0 <= j < |lists[q]| ensures Differ(lists[q], i, j) {
      }
    }
    forall x | x in cells && cells[x].kind != Free ensures SameUser(mem, m', cells, x) {
      assert CellOk(cells, bump, x);
    }
  }

  /** The head of a free list comes back into use. */
  lemma ReuseKeeps(mem: seq<nat>, m': seq<nat>, heads: seq<nat>, cells: Cells, lists: seq<seq<nat>>, bump: nat, c: nat)
    requires SlabOk(mem, heads, cells, lists, bump) && c < CLASSES && lists[c] != []
    requires HDR <= lists[c][0] && lists[c][0] / 8 < |mem| && m' == mem[lists[c][0] / 8 - 2 := HeadWord(c, MAGIC)]
    ensures var o := lists[c][0];
      && o in cells && cells[o].kind == Free
      && SlabOk(m', heads[c := mem[o / 8]], cells[o := cells[o].(kind := Live)], lists[c := lists[c][1..]], bump)
      && forall x :: x in cells && cells[x].kind != Free ==> SameUser(mem, m', cells, x)
  {
    var o := lists[c][0];
    assert o in lists[c];
    var d, h, l := cells[o := cells[o].(kind := Live)], heads[c := mem[o / 8]], lists[c := lists[c][1..]];
    assert CellOk(cells, bump, o);
    HeaderFrame(mem, m', heads, cells, lists, bump, o, HeadWord(c, MAGIC));
    forall x | x in d ensures CellOk(d, bump, x) && HeadOk(m', d, x) {
      assert CellOk(cells, bump, x) && HeadOk(mem, cells, x) && CellsApart(cells, x, o);
    }
    forall a, b | a in d && b in d ensures CellsApart(d, a, b) {
      assert CellsApart(cells, a, b);
    }
    forall x, q | 0 <= q < CLASSES ensures x in l[q] <==> x in d && d[x].kind == Free && d[x].cls == q {
      if q == c { TailMembers(mem, heads[c], lists[c], x); }
    }
    forall q | 0 <= q < CLASSES ensures ListHeld(m', h[q], l[q]) {
      assert ListHeld(m', heads[q], lists[q]);
      if q == c { TailHeld(m', heads[c], lists[c]); }
    }
  }

  lemma TailMembers(mem: seq<nat>, head: nat, list: seq<nat>, x: nat)
    requires ListHeld(mem, head, list) && list != []
    ensures x in list[1..] <==> x in list && x != list[0]
  {
    if x in list[1..] {
      var i :| 1 <= i < |list| && list[i] == x;
      assert Differ(list, 0, i);
    }
  }

  lemma TailHeld(mem: seq<nat>, head: nat, list: seq<nat>)
    requires ListHeld(mem, head, list) && list != []
    ensures list[0] / 8 < |mem| && ListHeld(mem, mem[list[0] / 8], list[1..])
  {
    assert NextIs(mem, list, 0);
    forall i | 0 <= i < |list| - 1 ensures NextIs(mem, list[1..], i) {
      assert NextIs(mem, list, i + 1);
    }
    forall i, j | 0 <= i < |list| - 1 && 0 <= j < |list| - 1 ensures Differ(list[1..], i, j) {
      assert Differ(list, i + 1, j + 1);
    }
  }

  /** Rewriting the first header word of a cell touches no list and no user part. */
  lemma HeaderFrame(mem: seq<nat>, m': seq<nat>, heads: seq<nat>, cells: Cells, lists: seq<seq<nat>>, bump: nat,
      o: nat, w: nat)
    requires SlabOk(mem, heads, cells, lists, bump) && o in cells && HDR <= o && o / 8 <= |mem|
      && m' == mem[o / 8 - 2 := w]
    ensures forall q :: 0 <= q < CLASSES ==> ListHeld(m', heads[q], lists[q])
    ensures forall x :: x in cells ==> SameUser(mem, m', cells, x)
  {
    assert CellOk(cells, bump, o);
    forall q | 0 <= q < CLASSES ensures ListHeld(m', heads[q], lists[q]) {
      assert ListHeld(mem, heads[q], lists[q]);
      forall i | 0 <= i < |lists[q]| ensures NextIs(m', lists[q], i) {
        assert NextIs(mem, lists[q], i) && lists[q][i] in lists[q];
        assert CellOk(cells, bump, lists[q][i]) && CellsApart(cells, lists[q][i], o);
      }
      forall i, j | 0 <= i < |lists[q]| && 0 <= j < |lists[q]| ensures Differ(lists[q], i, j) {
      }
    }
    forall x | x in cells ensures SameUser(mem, m', cells, x) {
      assert CellOk(cells, bump, x) && CellsApart(cells, x, o);
    }
  }

  /** A live cell goes to the front of its class's list. */
  lemma FreeKeeps(mem: seq<nat>, m': seq<nat>, heads: seq<nat>, cells: Cells, lists: seq<seq<nat>>, bump: nat, o: nat)
    requires SlabOk(mem, heads, cells, lists, bump) && o in cells && cells[o].kind == Live
    requires HDR <= o && o / 8 < |mem| && cells[o].cls < CLASSES
    requires m' == mem[o / 8 - 2 := HeadWord(cells[o].cls, POISON)][o / 8 := heads[cells[o].cls]]
    ensures var c := cells[o].cls;
      && SlabOk(m', heads[c := o], cells[o := cells[o].(kind := Free)], lists[c := [o] + lists[c]], bump)
      && forall x :: x in cells && cells[x].kind != Free && x != o ==> SameUser(mem, m', cells, x)
  {
    var c := cells[o].cls;
    var d, h, l := cells[o := cells[o].(kind := Free)], heads[c := o], lists[c := [o] + lists[c]];
    assert CellOk(cells, bump, o);
    var m1 := mem[o / 8 - 2 := HeadWord(c, POISON)];
    HeaderFrame(mem, m1, heads, cells, lists, bump, o, HeadWord(c, POISON));
    forall x | x in d ensures CellOk(d, bump, x) && HeadOk(m', d, x) {
      assert CellOk(cells, bump, x) && HeadOk(mem, cells, x) && CellsApart(cells, x, o);
    }
    forall a, b | a in d && b in d ensures CellsApart(d, a, b) {
      assert CellsApart(cells, a, b);
    }
    forall q | 0 <= q < CLASSES ensures ListHeld(m', h[q], l[q]) {
      assert ListHeld(m1, heads[q], lists[q]);
      assert o !in lists[q];
      LinkFrame(m1, m', heads[q], lists[q], cells, bump, o, heads[c]);
      if q == c { PushHeld(m', heads[c], lists[c], o); }
    }
    forall x | x in cells && x != o ensures SameUser(mem, m', cells, x) {
      assert CellOk(cells, bump, x) && CellsApart(cells, x, o);
    }
  }

  lemma LinkFrame(mem: seq<nat>, m': seq<nat>, head: nat, list: seq<nat>, cells: Cells, bump: nat, o: nat, w: nat)
    requires ListHeld(mem, head, list) && Layout(cells, bump) && o in cells && o !in list && cells[o].kind != Permanent
    requires o / 8 < |mem| && m' == mem[o / 8 := w]
    requires forall x :: x in list ==> x in cells && cells[x].kind == Free
    ensures ListHeld(m', head, list)
  {
    assert CellOk(cells, bump, o);
    forall i | 0 <= i < |list| ensures NextIs(m', list, i) {
      assert NextIs(mem, list, i) && list[i] in list;
      assert CellOk(cells, bump, list[i]) && CellsApart(cells, list[i], o);
    }
    forall i, j | 0 <= i < |list| && 0 <= j < |list| ensures Differ(list, i, j) {
    }
  }

  lemma PushHeld(mem: seq<nat>, head: nat, list: seq<nat>, o: nat)
    requires ListHeld(mem, head, list) && o > 0 && o / 8 < |mem| && mem[o / 8] == head && o !in list
    ensures ListHeld(mem, o, [o] + list)
  {
    var l := [o] + list;
    forall i | 0 <= i < |l| ensures NextIs(mem, l, i) {
      if i > 0 { assert NextIs(mem, list, i - 1); }
    }
    forall i, j | 0 <= i < |l| && 0 <= j < |l| ensures Differ(l, i, j) {
      if i > 0 && j > 0 { assert Differ(list, i - 1, j - 1); }
    }
  }
}
