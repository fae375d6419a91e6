// The tile buffer of a 2D HiPS layer (HiPS2DBuffer): twelve root textures kept aside in a
// fixed array, and 116 further texture slots recycled oldest-request-first.

module Hips2DBuffer {
  import opened Wrappers
  import opened HpxCell
  import SB = SurveyBuffer

  /** Slots of the texture array beyond the twelve root ones: 128 slices less the roots. */
  const HEAP_SIZE: nat := 128 - NUM_HPX_TILES_DEPTH_ZERO

  /** `num_root_textures_available` is a `u8`; an increment past 255 wraps to 0. */
  const U8_MODULUS: nat := 256

  /** The fields of the buffer that change after construction: the heap, the map of
      non-root textures, the twelve root textures, the root counter and the frame flag. */
  datatype State = State(heap: seq<Item>, textures: map<Cell, Texture>, base: seq<Texture>,
                         numRoot: nat, frameFlag: bool)

  /** Root texture i is the texture of cell (0, i) and uses slot i. */
  predicate BaseValid(base: seq<Texture>)
  {
    |base| == NUM_HPX_TILES_DEPTH_ZERO
    && forall i | 0 <= i < NUM_HPX_TILES_DEPTH_ZERO :: base[i].cell == Cell(0, i) && base[i].idx == i
  }

  /** The number of tiles written into the root textures, all together. */
  function RootTiles(base: seq<Texture>): nat
  {
    if |base| == 0 then 0 else |base[0].tiles| + RootTiles(base[1..])
  }

  /** The twelve root textures `new` and `set_format` build, requested at `now`. */
  function BaseTextures(now: int): (r: seq<Texture>)
    ensures BaseValid(r) && RootTiles(r) == 0
  {
    var r := seq(NUM_HPX_TILES_DEPTH_ZERO, (i: nat) => NewTexture(Cell(0, i), i, now));
    NoRootTiles(r);
    r
  }

  /** The state `new` and `set_format` leave. */
  function Initial(now: int): State
  {
    State([], map[], BaseTextures(now), 0, false)
  }

  /** The invariant the buffer keeps between calls: the roots in their slots, only non-root
      textures in the map, each exactly once in the heap, in distinct slots 12 .. 12 + |heap| - 1,
      at most 116 of them, and the root counter equal to the number of root tiles, modulo 256. */
  predicate Consistent(s: State)
  {
    BaseValid(s.base) && HeapConsistent(s.heap, s.textures)
    && s.numRoot == RootTiles(s.base) % U8_MODULUS
  }

  /** The part of the invariant about the heap and the map of non-root textures. */
  predicate HeapConsistent(heap: seq<Item>, m: map<Cell, Texture>)
  {
    |heap| <= HEAP_SIZE && SB.KeysValid(m) && (forall c | c in m :: !IsRoot(c))
    && SB.HeapMatches(heap, m) && SB.SlotsDistinct(m, |heap|)
  }

  /** `get`: the root texture of a root cell, else the texture of the map (a root index past
      the twelve roots, where the source indexes out of bounds, gives None). */
  function GetTexture(s: State, texCell: Cell): Option<Texture>
  {
    if IsRoot(texCell) then
      if texCell.idx < |s.base| then Some(s.base[texCell.idx]) else None
    else if texCell in s.textures then Some(s.textures[texCell])
    else None
  }

  /** `contains_tile`: the texture of the tile is held and holds the tile. */
  predicate HasTile(cfg: SB.Config, s: State, cell: Cell)
  {
    var t := GetTexture(s, TextureCell(cell, cfg.deltaDepth));
    t.Some? && cell in t.value.tiles
  }

  /** `contains`: the texture is held and all of its tiles are written. */
  predicate HasAvailable(cfg: SB.Config, s: State, texCell: Cell)
  {
    var t := GetTexture(s, texCell);
    t.Some? && IsAvailable(t.value, cfg.tilesPerTexture)
  }

  /** The heap and the map once `push` has made a texture for the non-root texture cell tex,
      which has none: when the heap is full the oldest-requested texture is popped, removed
      and reassigned to tex, else a new texture takes slot 12 + |heap|; either is pushed on
      the heap. None where the source panics: the `unwrap` of a pop on an empty heap, or the
      `expect` on a popped cell missing from the map. */
  function Created(heap: seq<Item>, m: map<Cell, Texture>, tex: Cell, time: int)
    : (r: Option<(seq<Item>, map<Cell, Texture>)>)
    ensures r.Some? ==>
      var m' := r.value.1;
      tex in m' && m'[tex].cell == tex && m'[tex].timeRequest == time && m'[tex].tiles == {}
  {
    if |heap| == HEAP_SIZE then
      match Pop(heap)
      case None => None
      case Some((oldest, rest)) =>
        if oldest.cell in m then
          var t := Replace(m[oldest.cell], tex, time);
          Some((rest + [ItemOf(t)], (m - {oldest.cell})[tex := t]))
        else None
    else
      var t := NewTexture(tex, NUM_HPX_TILES_DEPTH_ZERO + |heap|, time);
      Some((heap + [ItemOf(t)], m[tex := t]))
  }

  /** The state once `push` has written tile `cell` into the texture of tex: a root texture is
      updated in its array slot and counted in the root counter (wrapping as a `u8`), any
      other in the map; the frame flag is raised. */
  function Written(s: State, tex: Cell, cell: Cell): (r: State)
    requires if IsRoot(tex) then tex.idx < |s.base| else tex in s.textures
    ensures r.heap == s.heap && r.frameFlag && |r.base| == |s.base|
    ensures r.textures.Keys == s.textures.Keys
    ensures GetTexture(r, tex).Some? && GetTexture(r, tex).value.tiles == GetTexture(s, tex).value.tiles + {cell}
  {
    if IsRoot(tex) then
      s.(base := s.base[tex.idx := Append(s.base[tex.idx], cell)],
         numRoot := (s.numRoot + 1) % U8_MODULUS, frameFlag := true)
    else
      s.(textures := s.textures[tex := Append(s.textures[tex], cell)], frameFlag := true)
  }

  /** `push` of tile `cell` requested at `time`: nothing when the tile is already held; else a
      non-root texture is made if missing, and the tile written into its texture. None where
      the source panics. */
  function PushState(cfg: SB.Config, s: State, cell: Cell, time: int): (r: Option<State>)
  {
    if HasTile(cfg, s, cell) then Some(s)
    else
      var tex := TextureCell(cell, cfg.deltaDepth);
      if IsRoot(tex) then
        if tex.idx < |s.base| then Some(Written(s, tex, cell)) else None
      else
        var made: Option<(seq<Item>, map<Cell, Texture>)> :=
          if tex in s.textures then Some((s.heap, s.textures))
          else Created(s.heap, s.textures, tex, time);
        match made
        case None => None
        case Some((heap, m)) => Some(Written(s.(heap := heap, textures := m), tex, cell))
  }

  /** `update_priority` on a held tile: a root texture is not in the heap and nothing changes;
      otherwise the heap entry of its texture is replaced by one requested at `now`. */
  function UpdatedHeap(cfg: SB.Config, s: State, cell: Cell, now: int): (r: seq<Item>)
    requires HasTile(cfg, s, cell)
  {
    var tex := TextureCell(cell, cfg.deltaDepth);
    if IsRoot(tex) then s.heap
    else UpdateEntry(s.heap, ItemOf(s.textures[tex]).(time := now))
  }

  /** `get_nearest_parent` above a non-root cell: its first available ancestor, or None once
      an unavailable root is reached. */
  function NearestParent(cfg: SB.Config, s: State, c: Cell): (r: Option<Cell>)
    requires !IsRoot(c)
    ensures r.Some? ==> r.value.depth < c.depth && HasAvailable(cfg, s, r.value)
    decreases c.depth
  {
    var q := Parent(c);
    if HasAvailable(cfg, s, q) then Some(q)
    else if IsRoot(q) then None
    else NearestParent(cfg, s, q)
  }

  // ---------------------------------------------------------------------------------------
  // Properties of the operations.

  lemma {:induction false} NoRootTiles(base: seq<Texture>)
    requires forall i | 0 <= i < |base| :: base[i].tiles == {}
    ensures RootTiles(base) == 0
  {
    if |base| > 0 {
      NoRootTiles(base[1..]);
    }
  }

  /** Writing one more tile into root texture i adds one to the root tiles. */
  lemma {:induction false} RootTilesUpdate(base: seq<Texture>, i: nat, t: Texture)
    requires i < |base| && |t.tiles| == |base[i].tiles| + 1
    ensures RootTiles(base[i := t]) == RootTiles(base) + 1
  {
    if i == 0 {
      assert base[i := t][1..] == base[1..];
    } else {
      assert base[i := t][1..] == base[1..][i - 1 := t];
      RootTilesUpdate(base[1..], i - 1, t);
    }
  }

  /** The buffer `new` and `set_format` leave is consistent. */
  lemma InitialConsistent(now: int)
    ensures Consistent(Initial(now))
  {
  }

  /** A root tile is written into its root texture: heap and map are untouched, and the root
      counter follows the root tiles. */
  lemma WrittenRootKeeps(s: State, tex: Cell, cell: Cell)
    requires Consistent(s) && IsRoot(tex) && tex.idx < |s.base|
    requires cell !in s.base[tex.idx].tiles
    ensures Consistent(Written(s, tex, cell))
    ensures Written(s, tex, cell).heap == s.heap && Written(s, tex, cell).textures == s.textures
  {
    var t := Append(s.base[tex.idx], cell);
    assert |t.tiles| == |s.base[tex.idx].tiles| + 1;
    RootTilesUpdate(s.base, tex.idx, t);
    WrapSucc(RootTiles(s.base));
  }

  /** Incrementing a wrapped counter wraps the incremented count. */
  lemma WrapSucc(n: nat)
    ensures (n % U8_MODULUS + 1) % U8_MODULUS == (n + 1) % U8_MODULUS
  {
  }

  /** A tile is written into a non-root texture of the map. */
  lemma WrittenMapKeeps(s: State, tex: Cell, cell: Cell)
    requires Consistent(s) && !IsRoot(tex) && tex in s.textures
    ensures Consistent(Written(s, tex, cell))
  {
    AppendMapKeeps(s.heap, s.textures, tex, cell);
  }

  lemma AppendMapKeeps(heap: seq<Item>, m: map<Cell, Texture>, tex: Cell, cell: Cell)
    requires HeapConsistent(heap, m) && tex in m
    ensures HeapConsistent(heap, m[tex := Append(m[tex], cell)])
  {
    var t := Append(m[tex], cell);
    var m' := m[tex := t];
    assert SB.HeapMatches(heap, m') by {
      SB.NonRootKeysPut(m, tex, t);
    }
    assert SB.SlotsDistinct(m', |heap|) by {
      forall c, d | c in m' && d in m' && c != d ensures m'[c].idx != m'[d].idx {
        assert m'[c].idx == m[c].idx && m'[d].idx == m[d].idx;
      }
    }
  }

  /** A missing non-root texture is made in the next unused slot, 12 + |heap|. */
  lemma CreatedFreshKeeps(s: State, tex: Cell, time: int)
    requires Consistent(s) && !IsRoot(tex) && ValidCell(tex) && tex !in s.textures
    requires |s.heap| < HEAP_SIZE
    ensures
      var r := Created(s.heap, s.textures, tex, time);
      r.Some? && Consistent(s.(heap := r.value.0, textures := r.value.1))
  {
    FreshKeeps(s.heap, s.textures, tex, time);
  }

  lemma FreshKeeps(heap: seq<Item>, m: map<Cell, Texture>, tex: Cell, time: int)
    requires HeapConsistent(heap, m) && !IsRoot(tex) && ValidCell(tex) && tex !in m
    requires |heap| < HEAP_SIZE
    ensures
      var t := NewTexture(tex, NUM_HPX_TILES_DEPTH_ZERO + |heap|, time);
      HeapConsistent(heap + [ItemOf(t)], m[tex := t])
  {
    var t := NewTexture(tex, NUM_HPX_TILES_DEPTH_ZERO + |heap|, time);
    assert SB.HeapMatches(heap + [ItemOf(t)], m[tex := t]) by {
      SB.NonRootKeysPut(m, tex, t);
      PushKeeps(heap, ItemOf(t));
    }
    assert SB.SlotsDistinct(m[tex := t], |heap| + 1) by {
      SB.SlotsAddFresh(m, |heap|, tex, t);
    }
  }

  /** With the heap full, the oldest texture is taken out and reassigned, slot included. */
  lemma CreatedByEvictionKeeps(s: State, tex: Cell, time: int)
    requires Consistent(s) && !IsRoot(tex) && ValidCell(tex) && tex !in s.textures
    requires |s.heap| == HEAP_SIZE
    ensures
      var r := Created(s.heap, s.textures, tex, time);
      r.Some? && Consistent(s.(heap := r.value.0, textures := r.value.1))
  {
    EvictKeeps(s.heap, s.textures, tex, time);
    CreatedByEviction(s.heap, s.textures, tex, time);
  }

  lemma EvictKeeps(heap: seq<Item>, m: map<Cell, Texture>, tex: Cell, time: int)
    requires HeapConsistent(heap, m) && !IsRoot(tex) && ValidCell(tex) && tex !in m
    requires |heap| > 0
    ensures Pop(heap).Some?
    ensures
      var (oldest, rest) := Pop(heap).value;
      oldest.cell in m
      && var t := Replace(m[oldest.cell], tex, time);
         HeapConsistent(rest + [ItemOf(t)], (m - {oldest.cell})[tex := t])
  {
    PopKeeps(heap);
    var (oldest, rest) := Pop(heap).value;
    var t := Replace(m[oldest.cell], tex, time);
    var m1 := m - {oldest.cell};
    assert SB.HeapMatches(rest + [ItemOf(t)], m1[tex := t]) by {
      SB.NonRootKeysDrop(m, oldest.cell);
      SB.NonRootKeysPut(m1, tex, t);
      PushKeeps(rest, ItemOf(t));
    }
    assert SB.SlotsDistinct(m1[tex := t], |heap|) by {
      SB.SlotsReplace(m, |heap|, oldest.cell, tex, t);
    }
  }

  /** The texture made by evicting the oldest, spelled out. */
  lemma CreatedByEviction(heap: seq<Item>, m: map<Cell, Texture>, tex: Cell, time: int)
    requires |heap| == HEAP_SIZE && Pop(heap).value.0.cell in m
    ensures
      var (oldest, rest) := Pop(heap).value;
      var t := Replace(m[oldest.cell], tex, time);
      Created(heap, m, tex, time) == Some((rest + [ItemOf(t)], (m - {oldest.cell})[tex := t]))
  {
  }

  /** The oldest heap entry names a non-root texture of the map (the debug assertion of
      `push` that a root texture is never evicted). */
  lemma OldestHeld(s: State)
    requires Consistent(s) && |s.heap| > 0
    ensures Pop(s.heap).value.0.cell in s.textures && !IsRoot(Pop(s.heap).value.0.cell)
  {
    PopKeeps(s.heap);
  }

  /** `push` keeps the invariant and never panics on a consistent buffer; afterwards the tile
      is held; a tile already held changes nothing; otherwise the tile joins the tiles of its
      texture (a new texture having none), and a root tile leaves the heap and the map alone. */
  lemma PushStateKeeps(cfg: SB.Config, s: State, cell: Cell, time: int)
    requires Consistent(s) && ValidCell(cell)
    ensures PushState(cfg, s, cell, time).Some?
    ensures
      var r := PushState(cfg, s, cell, time).value;
      var tex := TextureCell(cell, cfg.deltaDepth);
      Consistent(r) && HasTile(cfg, r, cell)
      && (HasTile(cfg, s, cell) ==> r == s)
      && (!HasTile(cfg, s, cell) ==>
            GetTexture(r, tex).value.tiles
            == (if GetTexture(s, tex).Some? then GetTexture(s, tex).value.tiles else {}) + {cell})
      && (IsRoot(tex) ==> r.heap == s.heap && r.textures == s.textures)
  {
    if HasTile(cfg, s, cell) {
      return;
    }
    var tex := TextureCell(cell, cfg.deltaDepth);
    if IsRoot(tex) {
      ValidRoot(tex);
      WrittenRootKeeps(s, tex, cell);
    } else if tex in s.textures {
      WrittenMapKeeps(s, tex, cell);
    } else {
      if |s.heap| == HEAP_SIZE {
        CreatedByEvictionKeeps(s, tex, time);
      } else {
        CreatedFreshKeeps(s, tex, time);
      }
      var made := Created(s.heap, s.textures, tex, time).value;
      WrittenMapKeeps(s.(heap := made.0, textures := made.1), tex, cell);
    }
  }

  /** Where the texture of a tile in a missing non-root texture goes: with a free slot, a new
      texture in slot 12 + |heap|, pushed on the heap; with the heap full, the
      oldest-requested texture, never a root one, leaves the buffer and tex takes its slot,
      the heap keeping its length. */
  lemma PushSlot(cfg: SB.Config, s: State, cell: Cell, time: int)
    requires Consistent(s) && ValidCell(cell)
    requires var tex := TextureCell(cell, cfg.deltaDepth); !IsRoot(tex) && tex !in s.textures
    ensures PushState(cfg, s, cell, time).Some?
    ensures
      var r := PushState(cfg, s, cell, time).value;
      var tex := TextureCell(cell, cfg.deltaDepth);
      if |s.heap| < HEAP_SIZE then
        r.textures[tex].idx == NUM_HPX_TILES_DEPTH_ZERO + |s.heap| && |r.heap| == |s.heap| + 1
        && r.textures.Keys == s.textures.Keys + {tex}
      else
        |s.heap| > 0
        && var oldest := Pop(s.heap).value.0;
           oldest.cell in s.textures && !IsRoot(oldest.cell)
           && (forall j | 0 <= j < |s.heap| :: oldest.time <= s.heap[j].time)
           && r.textures[tex].idx == s.textures[oldest.cell].idx && |r.heap| == |s.heap|
           && r.textures.Keys == s.textures.Keys - {oldest.cell} + {tex}
  {
    if |s.heap| == HEAP_SIZE {
      OldestHeld(s);
      PushSlotEvict(cfg, s, cell, time);
    } else {
      PushSlotFresh(cfg, s, cell, time);
    }
  }

  lemma PushSlotFresh(cfg: SB.Config, s: State, cell: Cell, time: int)
    requires var tex := TextureCell(cell, cfg.deltaDepth); !IsRoot(tex) && tex !in s.textures
    requires |s.heap| < HEAP_SIZE
    ensures PushState(cfg, s, cell, time).Some?
    ensures
      var r := PushState(cfg, s, cell, time).value;
      var tex := TextureCell(cell, cfg.deltaDepth);
      r.textures[tex].idx == NUM_HPX_TILES_DEPTH_ZERO + |s.heap| && |r.heap| == |s.heap| + 1
      && r.textures.Keys == s.textures.Keys + {tex}
  {
    var tex := TextureCell(cell, cfg.deltaDepth);
    var t := NewTexture(tex, NUM_HPX_TILES_DEPTH_ZERO + |s.heap|, time);
    var h, m := s.heap + [ItemOf(t)], s.textures[tex := t];
    assert Created(s.heap, s.textures, tex, time) == Some((h, m));
    assert PushState(cfg, s, cell, time) == Some(Written(s.(heap := h, textures := m), tex, cell));
  }

  lemma PushSlotEvict(cfg: SB.Config, s: State, cell: Cell, time: int)
    requires var tex := TextureCell(cell, cfg.deltaDepth); !IsRoot(tex) && tex !in s.textures
    requires |s.heap| == HEAP_SIZE
    requires Pop(s.heap).value.0.cell in s.textures && !IsRoot(Pop(s.heap).value.0.cell)
    ensures PushState(cfg, s, cell, time).Some?
    ensures
      var r := PushState(cfg, s, cell, time).value;
      var tex := TextureCell(cell, cfg.deltaDepth);
      |s.heap| > 0
      && var oldest := Pop(s.heap).value.0;
         oldest.cell in s.textures && !IsRoot(oldest.cell)
         && (forall j | 0 <= j < |s.heap| :: oldest.time <= s.heap[j].time)
         && r.textures[tex].idx == s.textures[oldest.cell].idx && |r.heap| == |s.heap|
         && r.textures.Keys == s.textures.Keys - {oldest.cell} + {tex}
  {
    var tex := TextureCell(cell, cfg.deltaDepth);
    assert |Pop(s.heap).value.1| == |s.heap| - 1 by {
      assert |multiset(s.heap)| == |multiset(Pop(s.heap).value.1)| + 1;
    }
    var (oldest, rest) := Pop(s.heap).value;
    var t := Replace(s.textures[oldest.cell], tex, time);
    var h, m := rest + [ItemOf(t)], (s.textures - {oldest.cell})[tex := t];
    assert Created(s.heap, s.textures, tex, time) == Some((h, m));
    assert PushState(cfg, s, cell, time) == Some(Written(s.(heap := h, textures := m), tex, cell));
  }

  /** `get` on a consistent buffer returns the texture of the cell asked for; every existing
      root cell has one, and a non-root cell has one exactly when it is in the map. */
  lemma GetFindsCell(s: State, c: Cell)
    requires Consistent(s)
    ensures GetTexture(s, c).Some? ==> GetTexture(s, c).value.cell == c
    ensures IsRoot(c) && ValidCell(c) ==> GetTexture(s, c).Some? && GetTexture(s, c).value.idx == c.idx
    ensures !IsRoot(c) ==> (GetTexture(s, c).Some? <==> c in s.textures)
  {
    if IsRoot(c) && ValidCell(c) {
      ValidRoot(c);
    }
  }

  /** The heap is full exactly when all 116 non-root slots hold a texture. */
  lemma HeapFullIffSlotsTaken(s: State)
    requires Consistent(s)
    ensures |s.heap| == HEAP_SIZE <==> |s.textures| == HEAP_SIZE
  {
    DistinctCard(s.heap);
    assert SB.NonRootKeys(s.textures) == s.textures.Keys;
  }

  /** `update_priority` keeps the invariant and the length of the heap; the texture of the
      tile, when it is not a root, becomes the newest entry of the heap. */
  lemma UpdatePriorityKeeps(cfg: SB.Config, s: State, cell: Cell, now: int)
    requires Consistent(s) && HasTile(cfg, s, cell)
    ensures
      var h := UpdatedHeap(cfg, s, cell, now);
      var tex := TextureCell(cell, cfg.deltaDepth);
      Consistent(s.(heap := h)) && |h| == |s.heap|
      && (IsRoot(tex) ==> h == s.heap)
      && (!IsRoot(tex) ==> h[|h| - 1] == Item(tex, now))
  {
    var tex := TextureCell(cell, cfg.deltaDepth);
    if !IsRoot(tex) {
      UpdateEntryKeeps(s.heap, ItemOf(s.textures[tex]).(time := now));
    }
  }

  /** What `get_nearest_parent` returns above a non-root cell: Some(p) for the nearest
      available ancestor, every ancestor strictly between being unavailable; None when no
      ancestor up to the root is available. */
  lemma {:induction false} NearestParentIsNearest(cfg: SB.Config, s: State, c: Cell)
    requires !IsRoot(c)
    ensures
      var r := NearestParent(cfg, s, c);
      (r.Some? ==>
         var k := c.depth - r.value.depth;
         r.value == AncestorAt(c, k)
         && forall j | 1 <= j < k :: !HasAvailable(cfg, s, AncestorAt(c, j)))
      && (r.None? ==> forall j | 1 <= j <= c.depth :: !HasAvailable(cfg, s, AncestorAt(c, j)))
    decreases c.depth
  {
    var q := Parent(c);
    if !HasAvailable(cfg, s, q) {
      if IsRoot(q) {
        assert AncestorAt(c, 1) == q;
      } else {
        NearestParentIsNearest(cfg, s, q);
        forall j | 1 < j <= c.depth ensures AncestorAt(c, j) == AncestorAt(q, j - 1) {
        }
      }
    }
  }

  /** The tile buffer of one 2D HiPS layer. */
  class HiPS2DBuffer {
    var config: SB.Config
    var heap: seq<Item>
    var numRootTexturesAvailable: nat
    var size: nat
    var textures: map<Cell, Texture>
    var baseTextures: array<Texture>
    var availableTilesDuringFrame: bool

    /** What `new` establishes and no method changes: 116 heap slots and twelve root
        textures. */
    ghost predicate Valid()
      reads this
    {
      size == HEAP_SIZE && baseTextures.Length == NUM_HPX_TILES_DEPTH_ZERO
    }

    /** The fields `push`, `set_format`, `update_priority` and `reset_available_tiles`
        change. */
    ghost function St(): State
      reads this, baseTextures
    {
      State(heap, textures, baseTextures[..], numRootTexturesAvailable, availableTilesDuringFrame)
    }

    /** An empty buffer whose root textures are requested at `now`. */
    constructor(config: SB.Config, now: int)
      ensures Valid() && fresh(baseTextures)
      ensures this.config == config && St() == Initial(now)
    {
      this.config := config;
      size := HEAP_SIZE;
      heap := [];
      textures := map[];
      baseTextures := new Texture[NUM_HPX_TILES_DEPTH_ZERO](i => NewTexture(Cell(0, i), i, now));
      numRootTexturesAvailable := 0;
      availableTilesDuringFrame := false;
      new;
      assert baseTextures[..] == BaseTextures(now);
    }

    /** `set_format`: a new image format for the same buffer; every texture is dropped and
        the root textures are made anew, requested at `now`. */
    method SetFormat(now: int)
      requires Valid()
      modifies this`heap, this`textures, this`numRootTexturesAvailable
      modifies this`availableTilesDuringFrame, baseTextures
      ensures Valid() && St() == Initial(now)
    {
      forall i | 0 <= i < NUM_HPX_TILES_DEPTH_ZERO {
        baseTextures[i] := NewTexture(Cell(0, i), i, now);
      }
      heap := [];
      textures := map[];
      numRootTexturesAvailable := 0;
      availableTilesDuringFrame := false;
      assert baseTextures[..] == BaseTextures(now);
    }

    /** `get`. */
    function Get(texCell: Cell): (r: Option<Texture>)
      reads this, baseTextures
      ensures r == GetTexture(St(), texCell)
    {
      if IsRoot(texCell) then
        if texCell.idx < baseTextures.Length then Some(baseTextures[texCell.idx]) else None
      else if texCell in textures then Some(textures[texCell])
      else None
    }

    /** `contains_tile`. */
    predicate ContainsTile(cell: Cell)
      reads this, baseTextures
    {
      var t := Get(TextureCell(cell, config.deltaDepth));
      t.Some? && cell in t.value.tiles
    }

    /** `contains`. */
    predicate Contains(texCell: Cell)
      reads this, baseTextures
    {
      var t := Get(texCell);
      t.Some? && IsAvailable(t.value, config.tilesPerTexture)
    }

    /** `is_heap_full`. */
    predicate IsHeapFull()
      reads this
    {
      |heap| == size
    }

    /** The first half of `push`: a texture for the non-root texture cell tex, which has
        none. */
    method CreateTexture(tex: Cell, time: int) returns (panicked: bool)
      requires Valid() && !IsRoot(tex) && tex !in textures
      modifies this`heap, this`textures
      ensures
        var r := Created(old(heap), old(textures), tex, time);
        panicked == r.None? && (r.Some? ==> heap == r.value.0 && textures == r.value.1)
    {
      var texture;
      if IsHeapFull() {
        var popped := Pop(heap);
        if popped.None? {
          return true;
        }
        var (oldest, rest) := popped.value;
        heap := rest;
        if oldest.cell !in textures {
          return true;
        }
        texture := Replace(textures[oldest.cell], tex, time);
        textures := textures - {oldest.cell};
      } else {
        texture := NewTexture(tex, NUM_HPX_TILES_DEPTH_ZERO + |heap|, time);
      }
      heap := heap + [ItemOf(texture)];
      textures := textures[tex := texture];
      return false;
    }

    /** `push`: write a received tile into the texture of its texture cell, making a
        non-root texture first if needed; `panicked` where the source panics. */
    method Push(cell: Cell, timeRequest: int) returns (panicked: bool)
      requires Valid()
      modifies this`heap, this`textures, this`availableTilesDuringFrame
      modifies this`numRootTexturesAvailable, baseTextures
      ensures Valid()
      ensures
        var r := PushState(config, old(St()), cell, timeRequest);
        panicked == r.None? && (r.Some? ==> St() == r.value)
    {
      panicked := false;
      if ContainsTile(cell) {
        return;
      }
      var tex := TextureCell(cell, config.deltaDepth);
      if IsRoot(tex) {
        if tex.idx >= baseTextures.Length {
          return true;
        }
        numRootTexturesAvailable := (numRootTexturesAvailable + 1) % U8_MODULUS;
        baseTextures[tex.idx] := Append(baseTextures[tex.idx], cell);
      } else {
        if tex !in textures {
          panicked := CreateTexture(tex, timeRequest);
          if panicked {
            return;
          }
        }
        textures := textures[tex := Append(textures[tex], cell)];
      }
      availableTilesDuringFrame := true;
    }

    /** `reset_available_tiles`: read and clear the frame flag. */
    method ResetAvailableTiles() returns (r: bool)
      modifies this`availableTilesDuringFrame
      ensures r == old(availableTilesDuringFrame) && !availableTilesDuringFrame
    {
      r := availableTilesDuringFrame;
      availableTilesDuringFrame := false;
    }

    /** `update_priority` on a held tile, `now` standing for the clock reading. */
    method UpdatePriority(cell: Cell, now: int)
      requires ContainsTile(cell)
      modifies this`heap
      ensures heap == UpdatedHeap(config, old(St()), cell, now)
    {
      var texCell := TextureCell(cell, config.deltaDepth);
      if IsRoot(texCell) {
        return;
      }
      heap := UpdateEntry(heap, ItemOf(textures[texCell]).(time := now));
    }

    /** `get_nearest_parent`: a root cell itself, else the nearest available ancestor, or None
        when not even its root is available. */
    method GetNearestParent(cell: Cell) returns (r: Option<Cell>)
      ensures r == if IsRoot(cell) then Some(cell) else NearestParent(config, St(), cell)
    {
      if IsRoot(cell) {
        return Some(cell);
      }
      var p := Parent(cell);
      while !Contains(p) && !IsRoot(p)
        invariant p.depth < cell.depth
        invariant NearestParent(config, St(), cell)
                  == if Contains(p) then Some(p) else if IsRoot(p) then None
                     else NearestParent(config, St(), p)
        decreases p.depth
      {
        p := Parent(p);
      }
      if Contains(p) {
        r := Some(p);
      } else {
        r := None;
      }
    }
  }
}
