// HEALPix cells, GPU texture book-keeping and the request-time heap shared by the two Rust
// texture buffers (survey/buffer.rs and renderable/hips/d2/buffer.rs).

module HpxCell {
  import opened Wrappers

  /** Number of HEALPix cells at depth 0. */
  const NUM_HPX_TILES_DEPTH_ZERO: nat := 12

  /** A HEALPix cell: its depth (order) and its nested index at that depth. */
  datatype Cell = Cell(depth: nat, idx: nat)

  function Pow4(k: nat): (r: nat)
    ensures r >= 1
  {
    if k == 0 then 1 else 4 * Pow4(k - 1)
  }

  /** A cell that exists: its index is below 12 * 4^depth. */
  predicate ValidCell(c: Cell)
  {
    c.idx < NUM_HPX_TILES_DEPTH_ZERO * Pow4(c.depth)
  }

  predicate IsRoot(c: Cell)
  {
    c.depth == 0
  }

  /** The cell one depth up that contains c. */
  function Parent(c: Cell): (p: Cell)
    requires !IsRoot(c)
    ensures p.depth == c.depth - 1
    ensures ValidCell(c) ==> ValidCell(p)
  {
    Cell(c.depth - 1, c.idx / 4)
  }

  /** The ancestor k depths up. */
  function AncestorAt(c: Cell, k: nat): (a: Cell)
    requires k <= c.depth
    ensures a.depth == c.depth - k
    ensures ValidCell(c) ==> ValidCell(a)
    decreases k
  {
    if k == 0 then c else AncestorAt(Parent(c), k - 1)
  }

  /** The texture cell holding tile c: delta_depth levels up, or the root above a shallower
      tile. */
  function TextureCell(c: Cell, deltaDepth: nat): (t: Cell)
    ensures t.depth == if c.depth <= deltaDepth then 0 else c.depth - deltaDepth
    ensures ValidCell(c) ==> ValidCell(t)
  {
    if c.depth <= deltaDepth then AncestorAt(c, c.depth) else AncestorAt(c, deltaDepth)
  }

  /** A root cell that exists is one of the twelve base cells. */
  lemma ValidRoot(c: Cell)
    requires ValidCell(c) && IsRoot(c)
    ensures c.idx < NUM_HPX_TILES_DEPTH_ZERO
  {
  }

  // ---------------------------------------------------------------------------------------
  // Textures. A texture gathers the tiles of one texture cell and owns one slot (idx) of the
  // GPU texture array.

  datatype Texture = Texture(cell: Cell, idx: int, timeRequest: int, tiles: set<Cell>)

  /** A texture for `cell` in slot `idx` with no tile received yet. */
  function NewTexture(cell: Cell, idx: int, time: int): (t: Texture)
    ensures t.cell == cell && t.idx == idx && t.timeRequest == time && t.tiles == {}
  {
    Texture(cell, idx, time, {})
  }

  /** The texture reassigned to another cell: the slot is kept, the tiles are dropped. */
  function Replace(t: Texture, cell: Cell, time: int): (r: Texture)
    ensures r.idx == t.idx && r.cell == cell && r.timeRequest == time && r.tiles == {}
  {
    Texture(cell, t.idx, time, {})
  }

  /** The texture once `tile` has been written into it. */
  function Append(t: Texture, tile: Cell): (r: Texture)
    ensures r.cell == t.cell && r.idx == t.idx && r.timeRequest == t.timeRequest
    ensures r.tiles == t.tiles + {tile}
  {
    t.(tiles := t.tiles + {tile})
  }

  /** A texture is available (full) once all of its `perTexture` tiles have been written. */
  predicate IsAvailable(t: Texture, perTexture: nat)
  {
    |t.tiles| == perTexture
  }

  // ---------------------------------------------------------------------------------------
  // HEALPixCellHeap: a binary heap of (cell, request time) items whose order is reversed on
  // time, so that the oldest request pops first. It is kept here as the sequence of its items.

  datatype Item = Item(cell: Cell, time: int)

  /** The item a texture contributes: its cell and its request time. */
  function ItemOf(t: Texture): (it: Item)
    ensures it.cell == t.cell && it.time == t.timeRequest
  {
    Item(t.cell, t.timeRequest)
  }

  /** Cells of the items of a heap. */
  function HeapCells(h: seq<Item>): (s: set<Cell>)
    ensures forall x | x in h :: x.cell in s
  {
    if |h| == 0 then {} else {h[0].cell} + HeapCells(h[1..])
  }

  /** No cell is held twice. */
  predicate DistinctCells(h: seq<Item>)
  {
    |h| > 0 ==> h[0].cell !in HeapCells(h[1..]) && DistinctCells(h[1..])
  }

  /** The position of an oldest item, the first on a tie. `pop` returns an oldest item;
      which of several equally old ones the binary heap returns is not modelled. */
  function OldestIndex(h: seq<Item>): (k: nat)
    requires |h| > 0
    ensures k < |h|
    ensures forall j | 0 <= j < |h| :: h[k].time <= h[j].time
  {
    if |h| == 1 then 0
    else
      var k := OldestIndex(h[1..]);
      if h[0].time <= h[k + 1].time then 0 else k + 1
  }

  /** `pop`: None on an empty heap, else an oldest item and the heap without it. */
  function Pop(h: seq<Item>): (r: Option<(Item, seq<Item>)>)
    ensures r.None? <==> |h| == 0
    ensures r.Some? ==> multiset(h) == multiset(r.value.1) + multiset{r.value.0}
    ensures r.Some? ==> forall j | 0 <= j < |h| :: r.value.0.time <= h[j].time
  {
    if |h| == 0 then None
    else
      var k := OldestIndex(h);
      assert h == h[..k] + [h[k]] + h[k + 1..];
      Some((h[k], h[..k] + h[k + 1..]))
  }

  /** The heap with every item of cell c filtered out. */
  function Without(h: seq<Item>, c: Cell): (r: seq<Item>)
    ensures |r| <= |h|
  {
    if |h| == 0 then []
    else if h[0].cell == c then Without(h[1..], c)
    else [h[0]] + Without(h[1..], c)
  }

  /** `update_entry`: drop the item's cell from the heap, then push the item. */
  function UpdateEntry(h: seq<Item>, item: Item): (r: seq<Item>)
    ensures |r| > 0 && r[|r| - 1] == item
  {
    Without(h, item.cell) + [item]
  }

  // ---------------------------------------------------------------------------------------
  // Lemmas on the heap.

  lemma {:induction false} HeapCellsConcat(a: seq<Item>, b: seq<Item>)
    ensures HeapCells(a + b) == HeapCells(a) + HeapCells(b)
    ensures DistinctCells(a + b) <==> DistinctCells(a) && DistinctCells(b) && HeapCells(a) !! HeapCells(b)
    decreases |a|
  {
    if |a| > 0 {
      assert (a + b)[1..] == a[1..] + b;
      HeapCellsConcat(a[1..], b);
    } else {
      assert a + b == b;
    }
  }

  lemma {:induction false} WithoutKeeps(h: seq<Item>, c: Cell)
    ensures HeapCells(Without(h, c)) == HeapCells(h) - {c}
    ensures DistinctCells(h) ==> DistinctCells(Without(h, c))
    ensures DistinctCells(h) && c in HeapCells(h) ==> |Without(h, c)| == |h| - 1
    ensures c !in HeapCells(h) ==> Without(h, c) == h
    decreases |h|
  {
    if |h| > 0 {
      WithoutKeeps(h[1..], c);
      if h[0].cell != c {
        HeapCellsConcat([h[0]], Without(h[1..], c));
        assert [h[0]][1..] == [];
        if c !in HeapCells(h) {
          assert h == [h[0]] + h[1..];
        }
      }
    }
  }

  /** A heap holding each cell once has as many cells as items. */
  lemma {:induction false} DistinctCard(h: seq<Item>)
    requires DistinctCells(h)
    ensures |HeapCells(h)| == |h|
    decreases |h|
  {
    if |h| > 0 {
      DistinctCard(h[1..]);
    }
  }

  /** update_entry on a heap holding each cell once keeps each cell once, keeps the set of cells
      (plus the item's) and, when the cell was already there, the size. */
  lemma UpdateEntryKeeps(h: seq<Item>, item: Item)
    requires DistinctCells(h)
    ensures DistinctCells(UpdateEntry(h, item))
    ensures HeapCells(UpdateEntry(h, item)) == HeapCells(h) + {item.cell}
    ensures item.cell in HeapCells(h) ==> |UpdateEntry(h, item)| == |h|
  {
    var w := Without(h, item.cell);
    WithoutKeeps(h, item.cell);
    HeapCellsConcat(w, [item]);
    assert [item][1..] == [];
  }

  /** push of an item whose cell is not held yet. */
  lemma PushKeeps(h: seq<Item>, item: Item)
    requires DistinctCells(h) && item.cell !in HeapCells(h)
    ensures DistinctCells(h + [item])
    ensures HeapCells(h + [item]) == HeapCells(h) + {item.cell}
  {
    HeapCellsConcat(h, [item]);
    assert [item][1..] == [];
  }

  /** Popping a heap that holds each cell once removes exactly the popped cell. */
  lemma PopKeeps(h: seq<Item>)
    requires |h| > 0 && DistinctCells(h)
    ensures Pop(h).Some?
    ensures DistinctCells(Pop(h).value.1)
    ensures HeapCells(Pop(h).value.1) == HeapCells(h) - {Pop(h).value.0.cell}
    ensures Pop(h).value.0.cell in HeapCells(h)
    ensures |Pop(h).value.1| == |h| - 1
  {
    var k := OldestIndex(h);
    var a, b := h[..k], h[k + 1..];
    assert Pop(h).value == (h[k], a + b);
    assert h[k..] == [h[k]] + b;
    assert h == a + h[k..];
    HeapCellsConcat(a, [h[k]] + b);
    HeapCellsConcat([h[k]], b);
    HeapCellsConcat(a, b);
    assert [h[k]][1..] == [];
  }

  /** Cardinality of the twelve base cells, and of any set of base cells. */
  lemma {:induction false} RootCellsBound(s: set<Cell>)
    requires forall c | c in s :: IsRoot(c) && c.idx < NUM_HPX_TILES_DEPTH_ZERO
    ensures |s| <= NUM_HPX_TILES_DEPTH_ZERO
  {
    var idxs := set c | c in s :: c.idx;
    IdxInjective(s);
    RangeBound(idxs, NUM_HPX_TILES_DEPTH_ZERO);
  }

  lemma {:induction false} IdxInjective(s: set<Cell>)
    requires forall c | c in s :: IsRoot(c)
    ensures |set c | c in s :: c.idx| == |s|
    decreases |s|
  {
    if s != {} {
      var c :| c in s;
      var t := s - {c};
      IdxInjective(t);
      var ti := set d | d in t :: d.idx;
      assert (set d | d in s :: d.idx) == ti + {c.idx};
      assert c.idx !in ti;
    }
  }

  lemma {:induction false} RangeBound(s: set<nat>, n: nat)
    requires forall i | i in s :: i < n
    ensures |s| <= n
    decreases n
  {
    if n > 0 {
      RangeBound(s - {n - 1}, n - 1);
    }
  }
}
