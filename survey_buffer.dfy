// The tile buffer of an image survey (ImageSurveyTextures): a fixed number of GPU texture slots,
// twelve of them kept for the root textures, the others recycled oldest-request-first.

module SurveyBuffer {
  import opened Wrappers
  import opened HpxCell

  /** The parts of the survey's HiPSConfig the buffer reads: how many depths a texture spans
      and how many tiles fill one texture. */
  datatype Config = Config(deltaDepth: nat, tilesPerTexture: nat)

  /** The texture cells outside depth 0, i.e. those recycled through the heap. */
  function NonRootKeys(m: map<Cell, Texture>): set<Cell>
  {
    set c | c in m && !IsRoot(c)
  }

  /** The root textures whose tiles have all been written. */
  function AvailableRoots(m: map<Cell, Texture>, n: nat): set<Cell>
  {
    set c | c in m && IsRoot(c) && n >= 1 && |m[c].tiles| >= n
  }

  /** Every texture is stored under its own cell, a cell that exists. */
  predicate KeysValid(m: map<Cell, Texture>)
  {
    forall c | c in m :: m[c].cell == c && ValidCell(c)
  }

  /** The heap holds each non-root texture cell exactly once, and nothing else. */
  predicate HeapMatches(heap: seq<Item>, m: map<Cell, Texture>)
  {
    DistinctCells(heap) && HeapCells(heap) == NonRootKeys(m)
  }

  /** Slot numbers: a root texture sits in the slot of its index, the others in slots
      12 .. 12 + |heap| - 1, and no two textures share a slot. */
  predicate SlotsDistinct(m: map<Cell, Texture>, heapLen: nat)
  {
    (forall c | c in m && IsRoot(c) :: m[c].idx == c.idx)
    && (forall c | c in m && !IsRoot(c) ::
          NUM_HPX_TILES_DEPTH_ZERO <= m[c].idx < NUM_HPX_TILES_DEPTH_ZERO + heapLen)
    && (forall c, d | c in m && d in m && c != d :: m[c].idx != m[d].idx)
  }

  /** The state the buffer keeps between calls. */
  predicate Inv(cfg: Config, size: nat, heap: seq<Item>, m: map<Cell, Texture>, numRoot: nat,
                ready: bool)
  {
    NUM_HPX_TILES_DEPTH_ZERO <= size && |heap| <= size - NUM_HPX_TILES_DEPTH_ZERO
    && KeysValid(m) && HeapMatches(heap, m) && SlotsDistinct(m, |heap|)
    && numRoot == |AvailableRoots(m, cfg.tilesPerTexture)|
    && ready == (numRoot == NUM_HPX_TILES_DEPTH_ZERO)
  }

  /** The root-texture counter never exceeds 12 (the debug assertion of `push`). */
  lemma RootCounterBound(cfg: Config, size: nat, heap: seq<Item>, m: map<Cell, Texture>,
                         numRoot: nat, ready: bool)
    requires Inv(cfg, size, heap, m, numRoot, ready)
    ensures numRoot <= NUM_HPX_TILES_DEPTH_ZERO
  {
    var s := AvailableRoots(m, cfg.tilesPerTexture);
    forall c | c in s ensures IsRoot(c) && c.idx < NUM_HPX_TILES_DEPTH_ZERO {
      ValidRoot(c);
    }
    RootCellsBound(s);
  }

  // ---------------------------------------------------------------------------------------
  // How each part of the invariant reacts to the map updates `push` makes.

  lemma NonRootKeysPut(m: map<Cell, Texture>, c: Cell, t: Texture)
    ensures NonRootKeys(m[c := t]) == if IsRoot(c) then NonRootKeys(m) else NonRootKeys(m) + {c}
  {
  }

  lemma NonRootKeysDrop(m: map<Cell, Texture>, c: Cell)
    ensures NonRootKeys(m - {c}) == NonRootKeys(m) - {c}
  {
  }

  /** Changing a non-root texture leaves the available roots alone. */
  lemma AvailableNonRoot(m: map<Cell, Texture>, c: Cell, t: Texture, n: nat)
    requires !IsRoot(c)
    ensures AvailableRoots(m[c := t], n) == AvailableRoots(m, n)
    ensures AvailableRoots(m - {c}, n) == AvailableRoots(m, n)
  {
    assert AvailableRoots(m[c := t], n) == AvailableRoots(m, n);
    assert AvailableRoots(m - {c}, n) == AvailableRoots(m, n);
  }

  /** A new texture with no tile written is not available. */
  lemma AvailableNewTexture(m: map<Cell, Texture>, c: Cell, t: Texture, n: nat)
    requires c !in m && t.tiles == {}
    ensures AvailableRoots(m[c := t], n) == AvailableRoots(m, n)
  {
    assert AvailableRoots(m[c := t], n) == AvailableRoots(m, n);
  }

  lemma SlotsAddRoot(m: map<Cell, Texture>, len: nat, tex: Cell, t: Texture)
    requires SlotsDistinct(m, len) && KeysValid(m)
    requires IsRoot(tex) && ValidCell(tex) && tex !in m && t.idx == tex.idx
    ensures SlotsDistinct(m[tex := t], len)
  {
    var m' := m[tex := t];
    forall c, d | c in m' && d in m' && c != d ensures m'[c].idx != m'[d].idx {
      if c == tex {
        if !IsRoot(d) { ValidRoot(tex); }
      } else if d == tex {
        if !IsRoot(c) { ValidRoot(tex); }
      }
    }
  }

  lemma SlotsAddFresh(m: map<Cell, Texture>, len: nat, tex: Cell, t: Texture)
    requires SlotsDistinct(m, len) && KeysValid(m)
    requires !IsRoot(tex) && tex !in m && t.idx == NUM_HPX_TILES_DEPTH_ZERO + len
    ensures SlotsDistinct(m[tex := t], len + 1)
  {
    var m' := m[tex := t];
    forall c | c in m && IsRoot(c) ensures m[c].idx < NUM_HPX_TILES_DEPTH_ZERO {
      ValidRoot(c);
    }
    forall c, d | c in m' && d in m' && c != d ensures m'[c].idx != m'[d].idx {
      if c != tex && d != tex {
        assert m'[c] == m[c] && m'[d] == m[d];
      }
    }
  }

  lemma SlotsReplace(m: map<Cell, Texture>, len: nat, gone: Cell, tex: Cell, t: Texture)
    requires SlotsDistinct(m, len) && KeysValid(m)
    requires gone in m && !IsRoot(gone) && !IsRoot(tex) && tex !in m && t.idx == m[gone].idx
    ensures SlotsDistinct((m - {gone})[tex := t], len)
  {
    var m' := (m - {gone})[tex := t];
    forall c, d | c in m' && d in m' && c != d ensures m'[c].idx != m'[d].idx {
      if c == tex {
        assert m'[d] == m[d] && d != gone;
      } else if d == tex {
        assert m'[c] == m[c] && c != gone;
      } else {
        assert m'[c] == m[c] && m'[d] == m[d];
      }
    }
  }

  // ---------------------------------------------------------------------------------------
  // One lemma per way `push` obtains the texture of a tile.

  /** A root texture is created in the slot of its own index. */
  lemma AddRootKeeps(cfg: Config, size: nat, heap: seq<Item>, m: map<Cell, Texture>,
                     numRoot: nat, ready: bool, tex: Cell, time: int)
    requires Inv(cfg, size, heap, m, numRoot, ready)
    requires IsRoot(tex) && ValidCell(tex) && tex !in m
    ensures Inv(cfg, size, heap, m[tex := NewTexture(tex, tex.idx, time)], numRoot, ready)
  {
    var t := NewTexture(tex, tex.idx, time);
    NonRootKeysPut(m, tex, t);
    AvailableNewTexture(m, tex, t, cfg.tilesPerTexture);
    SlotsAddRoot(m, |heap|, tex, t);
  }

  /** A non-root texture is created in the next unused slot, 12 + |heap|, and pushed. */
  lemma AddFreshKeeps(cfg: Config, size: nat, heap: seq<Item>, m: map<Cell, Texture>,
                      numRoot: nat, ready: bool, tex: Cell, time: int)
    requires Inv(cfg, size, heap, m, numRoot, ready)
    requires !IsRoot(tex) && ValidCell(tex) && tex !in m
    requires |heap| < size - NUM_HPX_TILES_DEPTH_ZERO
    ensures
      var t := NewTexture(tex, NUM_HPX_TILES_DEPTH_ZERO + |heap|, time);
      Inv(cfg, size, heap + [ItemOf(t)], m[tex := t], numRoot, ready)
  {
    var t := NewTexture(tex, NUM_HPX_TILES_DEPTH_ZERO + |heap|, time);
    NonRootKeysPut(m, tex, t);
    PushKeeps(heap, ItemOf(t));
    AvailableNonRoot(m, tex, t, cfg.tilesPerTexture);
    SlotsAddFresh(m, |heap|, tex, t);
  }

  /** The oldest non-root texture is taken out and reassigned, slot included, to tex. */
  lemma EvictKeeps(cfg: Config, size: nat, heap: seq<Item>, m: map<Cell, Texture>,
                   numRoot: nat, ready: bool, tex: Cell, time: int)
    requires Inv(cfg, size, heap, m, numRoot, ready)
    requires !IsRoot(tex) && ValidCell(tex) && tex !in m && |heap| > 0
    ensures Pop(heap).Some?
    ensures
      var (oldest, rest) := Pop(heap).value;
      oldest.cell in m && !IsRoot(oldest.cell) && oldest.cell != tex
      && var t := Replace(m[oldest.cell], tex, time);
         Inv(cfg, size, rest + [ItemOf(t)], (m - {oldest.cell})[tex := t], numRoot, ready)
  {
    PopKeeps(heap);
    var (oldest, rest) := Pop(heap).value;
    var t := Replace(m[oldest.cell], tex, time);
    var m1 := m - {oldest.cell};
    NonRootKeysDrop(m, oldest.cell);
    NonRootKeysPut(m1, tex, t);
    PushKeeps(rest, ItemOf(t));
    AvailableNonRoot(m, oldest.cell, t, cfg.tilesPerTexture);
    AvailableNonRoot(m1, tex, t, cfg.tilesPerTexture);
    SlotsReplace(m, |heap|, oldest.cell, tex, t);
  }

  /** A new tile is written into the texture of tex; a root texture that becomes available
      joins the available roots. */
  lemma AppendKeeps(cfg: Config, m: map<Cell, Texture>, len: nat, tex: Cell, tile: Cell)
    requires KeysValid(m) && SlotsDistinct(m, len) && tex in m && tile !in m[tex].tiles
    ensures
      var t := Append(m[tex], tile);
      var m' := m[tex := t];
      KeysValid(m') && NonRootKeys(m') == NonRootKeys(m) && SlotsDistinct(m', len)
      && if IsRoot(tex) && IsAvailable(t, cfg.tilesPerTexture) then
           tex !in AvailableRoots(m, cfg.tilesPerTexture)
           && AvailableRoots(m', cfg.tilesPerTexture) == AvailableRoots(m, cfg.tilesPerTexture) + {tex}
         else AvailableRoots(m', cfg.tilesPerTexture) == AvailableRoots(m, cfg.tilesPerTexture)
  {
    var t := Append(m[tex], tile);
    var m' := m[tex := t];
    var n := cfg.tilesPerTexture;
    assert |t.tiles| == |m[tex].tiles| + 1;
    NonRootKeysPut(m, tex, t);
    assert NonRootKeys(m') == NonRootKeys(m);
    forall c, d | c in m' && d in m' && c != d ensures m'[c].idx != m'[d].idx {
      assert m'[c].idx == m[c].idx && m'[d].idx == m[d].idx;
    }
    if IsRoot(tex) && IsAvailable(t, n) {
      assert AvailableRoots(m', n) == AvailableRoots(m, n) + {tex};
    } else {
      assert AvailableRoots(m', n) == AvailableRoots(m, n);
    }
  }

  // ---------------------------------------------------------------------------------------
  // What `push`, `update_priority` and `get_nearest_parent` do, as functions of the state.

  /** The fields of the buffer that change after construction: the heap, the texture map, the
      root-texture counter, the ready flag and the frame flag. */
  datatype State = State(heap: seq<Item>, textures: map<Cell, Texture>, numRoot: nat,
                         ready: bool, frameFlag: bool)

  /** The invariant the buffer keeps between calls, on a state. */
  predicate Consistent(cfg: Config, size: nat, s: State)
  {
    Inv(cfg, size, s.heap, s.textures, s.numRoot, s.ready)
  }

  /** `is_heap_full`: every slot beyond the twelve root slots is taken. */
  predicate HeapFull(heapLen: nat, size: nat)
    requires NUM_HPX_TILES_DEPTH_ZERO <= size
  {
    heapLen == size - NUM_HPX_TILES_DEPTH_ZERO
  }

  /** `contains_tile` on a texture map: the texture of the tile is there and holds the tile. */
  predicate HasTile(cfg: Config, m: map<Cell, Texture>, cell: Cell)
  {
    var t := TextureCell(cell, cfg.deltaDepth);
    t in m && cell in m[t].tiles
  }

  /** `contains` on a texture map: the texture is there and all of its tiles are written. */
  predicate HasAvailable(cfg: Config, m: map<Cell, Texture>, texCell: Cell)
  {
    texCell in m && IsAvailable(m[texCell], cfg.tilesPerTexture)
  }

  /** `push` needs a new non-root texture, hence a slot, for this tile. */
  predicate NeedsSlot(cfg: Config, m: map<Cell, Texture>, cell: Cell)
  {
    var t := TextureCell(cell, cfg.deltaDepth);
    !HasTile(cfg, m, cell) && t !in m && !IsRoot(t)
  }

  /** The heap and the map once `push` has made a texture for texture cell tex, which has
      none: a root texture takes the slot of its index; otherwise, when the heap is full, the
      oldest-requested texture is popped, removed and reassigned to tex, and else a new texture
      takes slot 12 + |heap|; a non-root texture is pushed on the heap. None where the source
      panics: the `unwrap` of a pop on an empty heap, or the `expect` on a popped cell missing
      from the map. */
  function CreatedTexture(size: nat, heap: seq<Item>, m: map<Cell, Texture>, tex: Cell,
                          time: int): (r: Option<(seq<Item>, map<Cell, Texture>)>)
    requires NUM_HPX_TILES_DEPTH_ZERO <= size
    ensures r.None? ==> !IsRoot(tex) && HeapFull(|heap|, size)
    ensures r.Some? ==>
      var m' := r.value.1;
      tex in m' && m'[tex].cell == tex && m'[tex].timeRequest == time && m'[tex].tiles == {}
  {
    if IsRoot(tex) then Some((heap, m[tex := NewTexture(tex, tex.idx, time)]))
    else if HeapFull(|heap|, size) then
      match Pop(heap)
      case None => None
      case Some((oldest, rest)) =>
        if oldest.cell in m then
          var t := Replace(m[oldest.cell], tex, time);
          Some((rest + [ItemOf(t)], (m - {oldest.cell})[tex := t]))
        else None
    else
      var t := NewTexture(tex, NUM_HPX_TILES_DEPTH_ZERO + |heap|, time);
      Some((heap + [ItemOf(t)], m[tex := t]))
  }

  /** The state once `push` has written tile `cell` into the texture of tex: the frame flag is
      raised, and a root texture the tile makes available is counted; the twelfth makes the
      buffer ready. */
  function Written(cfg: Config, s: State, tex: Cell, cell: Cell): (r: State)
    requires tex in s.textures
    ensures r.heap == s.heap && r.frameFlag
    ensures r.textures.Keys == s.textures.Keys && cell in r.textures[tex].tiles
    ensures r.textures[tex].idx == s.textures[tex].idx
  {
    var t := Append(s.textures[tex], cell);
    var completed := IsRoot(tex) && IsAvailable(t, cfg.tilesPerTexture);
    var count := if completed then s.numRoot + 1 else s.numRoot;
    State(s.heap, s.textures[tex := t], count,
          if completed && count == NUM_HPX_TILES_DEPTH_ZERO then true else s.ready, true)
  }

  /** `push` of tile `cell` requested at `time`: nothing when the tile is already held, else
      the texture of the tile is made if missing and the tile written into it. None where the
      source panics. */
  function PushState(cfg: Config, size: nat, s: State, cell: Cell, time: int): (r: Option<State>)
    requires NUM_HPX_TILES_DEPTH_ZERO <= size
    ensures r.Some? ==> HasTile(cfg, r.value.textures, cell)
  {
    if HasTile(cfg, s.textures, cell) then Some(s)
    else
      var tex := TextureCell(cell, cfg.deltaDepth);
      var made: Option<(seq<Item>, map<Cell, Texture>)> := if tex in s.textures then Some((s.heap, s.textures))
                  else CreatedTexture(size, s.heap, s.textures, tex, time);
      match made
      case None => None
      case Some((heap, m)) => Some(Written(cfg, s.(heap := heap, textures := m), tex, cell))
  }

  /** `update_priority` on a held tile: a root texture is not in the heap and nothing changes;
      otherwise the heap entry of its texture is replaced by one requested at `now`. */
  function UpdatedHeap(cfg: Config, heap: seq<Item>, m: map<Cell, Texture>, cell: Cell,
                       now: int): (r: seq<Item>)
    requires HasTile(cfg, m, cell)
    ensures var tex := TextureCell(cell, cfg.deltaDepth);
      !IsRoot(tex) ==> |r| > 0 && r[|r| - 1] == Item(m[tex].cell, now)
    ensures IsRoot(TextureCell(cell, cfg.deltaDepth)) ==> r == heap
  {
    var tex := TextureCell(cell, cfg.deltaDepth);
    if IsRoot(tex) then heap
    else UpdateEntry(heap, ItemOf(m[tex]).(time := now))
  }

  /** `get_nearest_parent` above a non-root cell: its first ancestor that is available or is a
      root. */
  function NearestParent(cfg: Config, m: map<Cell, Texture>, c: Cell): (p: Cell)
    requires !IsRoot(c)
    ensures p.depth < c.depth
    ensures IsRoot(p) || HasAvailable(cfg, m, p)
    decreases c.depth
  {
    var q := Parent(c);
    if HasAvailable(cfg, m, q) || IsRoot(q) then q else NearestParent(cfg, m, q)
  }

  // ---------------------------------------------------------------------------------------
  // Properties of the operations.

  /** The buffer `new` builds is consistent. */
  lemma InitialConsistent(cfg: Config, size: nat)
    requires NUM_HPX_TILES_DEPTH_ZERO <= size
    ensures Consistent(cfg, size, State([], map[], 0, false, false))
  {
    assert AvailableRoots(map[], cfg.tilesPerTexture) == {};
  }

  /** Making a texture keeps the invariant, and panics only when the buffer has no slot beyond
      the twelve roots and a non-root texture is needed. */
  lemma CreatedTextureKeeps(cfg: Config, size: nat, s: State, tex: Cell, time: int)
    requires Consistent(cfg, size, s) && ValidCell(tex) && tex !in s.textures
    ensures CreatedTexture(size, s.heap, s.textures, tex, time).None?
            <==> !IsRoot(tex) && size == NUM_HPX_TILES_DEPTH_ZERO
    ensures
      var r := CreatedTexture(size, s.heap, s.textures, tex, time);
      r.Some? ==> Consistent(cfg, size, s.(heap := r.value.0, textures := r.value.1))
  {
    if IsRoot(tex) {
      CreatedRootKeeps(cfg, size, s, tex, time);
    } else if !HeapFull(|s.heap|, size) {
      CreatedFreshKeeps(cfg, size, s, tex, time);
    } else if |s.heap| > 0 {
      CreatedByEvictionKeeps(cfg, size, s, tex, time);
    }
  }

  lemma CreatedRootKeeps(cfg: Config, size: nat, s: State, tex: Cell, time: int)
    requires Consistent(cfg, size, s) && ValidCell(tex) && tex !in s.textures && IsRoot(tex)
    ensures
      var r := CreatedTexture(size, s.heap, s.textures, tex, time);
      r.Some? && Consistent(cfg, size, s.(heap := r.value.0, textures := r.value.1))
  {
    AddRootKeeps(cfg, size, s.heap, s.textures, s.numRoot, s.ready, tex, time);
  }

  lemma CreatedFreshKeeps(cfg: Config, size: nat, s: State, tex: Cell, time: int)
    requires Consistent(cfg, size, s) && ValidCell(tex) && tex !in s.textures && !IsRoot(tex)
    requires !HeapFull(|s.heap|, size)
    ensures
      var r := CreatedTexture(size, s.heap, s.textures, tex, time);
      r.Some? && Consistent(cfg, size, s.(heap := r.value.0, textures := r.value.1))
  {
    AddFreshKeeps(cfg, size, s.heap, s.textures, s.numRoot, s.ready, tex, time);
  }

  lemma CreatedByEvictionKeeps(cfg: Config, size: nat, s: State, tex: Cell, time: int)
    requires Consistent(cfg, size, s) && ValidCell(tex) && tex !in s.textures && !IsRoot(tex)
    requires HeapFull(|s.heap|, size) && |s.heap| > 0
    ensures
      var r := CreatedTexture(size, s.heap, s.textures, tex, time);
      r.Some? && Consistent(cfg, size, s.(heap := r.value.0, textures := r.value.1))
  {
    EvictKeeps(cfg, size, s.heap, s.textures, s.numRoot, s.ready, tex, time);
    CreatedByEviction(size, s.heap, s.textures, tex, time);
  }

  /** The texture made by evicting the oldest, spelled out. */
  lemma CreatedByEviction(size: nat, heap: seq<Item>, m: map<Cell, Texture>, tex: Cell, time: int)
    requires NUM_HPX_TILES_DEPTH_ZERO <= size && !IsRoot(tex) && HeapFull(|heap|, size)
    requires |heap| > 0 && Pop(heap).value.0.cell in m
    ensures
      var (oldest, rest) := Pop(heap).value;
      var t := Replace(m[oldest.cell], tex, time);
      CreatedTexture(size, heap, m, tex, time) == Some((rest + [ItemOf(t)], (m - {oldest.cell})[tex := t]))
  {
  }

  /** Writing a new tile keeps the invariant, and the root counter stays at most 12 (the debug
      assertion of `push`). */
  lemma WrittenKeeps(cfg: Config, size: nat, s: State, tex: Cell, cell: Cell)
    requires Consistent(cfg, size, s) && tex in s.textures && cell !in s.textures[tex].tiles
    ensures Consistent(cfg, size, Written(cfg, s, tex, cell))
    ensures Written(cfg, s, tex, cell).numRoot <= NUM_HPX_TILES_DEPTH_ZERO
  {
    var m := s.textures;
    var t := Append(m[tex], cell);
    var r := Written(cfg, s, tex, cell);
    assert r.textures == m[tex := t];
    AppendKeeps(cfg, m, |s.heap|, tex, cell);
    var a := AvailableRoots(m[tex := t], cfg.tilesPerTexture);
    assert r.numRoot == |a|;
    forall c | c in a ensures IsRoot(c) && c.idx < NUM_HPX_TILES_DEPTH_ZERO {
      ValidRoot(c);
    }
    RootCellsBound(a);
  }

  /** `push` keeps the invariant; it panics exactly when the tile needs a new non-root
      texture and the buffer has no slot beyond the twelve roots; otherwise the tile is held
      afterwards, the root counter is at most 12, a tile already held changes nothing, and
      otherwise the tile joins the tiles of its texture (a new texture having none). */
  lemma PushStateKeeps(cfg: Config, size: nat, s: State, cell: Cell, time: int)
    requires Consistent(cfg, size, s) && ValidCell(cell)
    ensures PushState(cfg, size, s, cell, time).None?
            <==> NeedsSlot(cfg, s.textures, cell) && size == NUM_HPX_TILES_DEPTH_ZERO
    ensures
      var r := PushState(cfg, size, s, cell, time);
      var tex := TextureCell(cell, cfg.deltaDepth);
      r.Some? ==>
        Consistent(cfg, size, r.value) && r.value.numRoot <= NUM_HPX_TILES_DEPTH_ZERO
        && (HasTile(cfg, s.textures, cell) ==> r.value == s)
        && (!HasTile(cfg, s.textures, cell) ==>
              r.value.textures[tex].tiles
              == (if tex in s.textures then s.textures[tex].tiles else {}) + {cell})
  {
    if HasTile(cfg, s.textures, cell) {
      RootCounterBound(cfg, size, s.heap, s.textures, s.numRoot, s.ready);
      return;
    }
    var tex := TextureCell(cell, cfg.deltaDepth);
    if tex in s.textures {
      WrittenKeeps(cfg, size, s, tex, cell);
    } else {
      CreatedTextureKeeps(cfg, size, s, tex, time);
      var made := CreatedTexture(size, s.heap, s.textures, tex, time);
      if made.Some? {
        WrittenKeeps(cfg, size, s.(heap := made.value.0, textures := made.value.1), tex, cell);
      }
    }
  }

  /** Where the texture of a tile needing a slot goes: with a free slot, a new texture in
      slot 12 + |heap|, pushed on the heap; with the heap full, the oldest-requested texture
      leaves the buffer and tex takes its slot, the heap keeping its length. */
  lemma PushSlot(cfg: Config, size: nat, s: State, cell: Cell, time: int)
    requires Consistent(cfg, size, s) && ValidCell(cell) && NeedsSlot(cfg, s.textures, cell)
    requires NUM_HPX_TILES_DEPTH_ZERO < size
    ensures PushState(cfg, size, s, cell, time).Some?
    ensures
      var r := PushState(cfg, size, s, cell, time).value;
      var tex := TextureCell(cell, cfg.deltaDepth);
      if !HeapFull(|s.heap|, size) then
        r.textures[tex].idx == NUM_HPX_TILES_DEPTH_ZERO + |s.heap| && |r.heap| == |s.heap| + 1
        && r.textures.Keys == s.textures.Keys + {tex}
      else
        |s.heap| > 0
        && var oldest := Pop(s.heap).value.0;
           oldest.cell in s.textures && !IsRoot(oldest.cell)
           && (forall j | 0 <= j < |s.heap| :: oldest.time <= s.heap[j].time)
           && r.textures[tex].idx == s.textures[oldest.cell].idx && |r.heap| == |s.heap|
           && r.textures.Keys == s.textures.Keys - {oldest.cell} + {tex}
  {
    if HeapFull(|s.heap|, size) {
      OldestHeld(cfg, size, s);
      PushSlotEvict(cfg, size, s, cell, time);
    } else {
      PushSlotFresh(cfg, size, s, cell, time);
    }
  }

  lemma PushSlotFresh(cfg: Config, size: nat, s: State, cell: Cell, time: int)
    requires NUM_HPX_TILES_DEPTH_ZERO <= size && NeedsSlot(cfg, s.textures, cell)
    requires !HeapFull(|s.heap|, size)
    ensures PushState(cfg, size, s, cell, time).Some?
    ensures
      var r := PushState(cfg, size, s, cell, time).value;
      var tex := TextureCell(cell, cfg.deltaDepth);
      r.textures[tex].idx == NUM_HPX_TILES_DEPTH_ZERO + |s.heap| && |r.heap| == |s.heap| + 1
      && r.textures.Keys == s.textures.Keys + {tex}
  {
    var tex := TextureCell(cell, cfg.deltaDepth);
    var t := NewTexture(tex, NUM_HPX_TILES_DEPTH_ZERO + |s.heap|, time);
    var h, m := s.heap + [ItemOf(t)], s.textures[tex := t];
    assert CreatedTexture(size, s.heap, s.textures, tex, time) == Some((h, m));
    assert PushState(cfg, size, s, cell, time) == Some(Written(cfg, s.(heap := h, textures := m), tex, cell));
  }

  lemma PushSlotEvict(cfg: Config, size: nat, s: State, cell: Cell, time: int)
    requires NUM_HPX_TILES_DEPTH_ZERO <= size && NeedsSlot(cfg, s.textures, cell)
    requires HeapFull(|s.heap|, size) && |s.heap| > 0
    requires Pop(s.heap).value.0.cell in s.textures && !IsRoot(Pop(s.heap).value.0.cell)
    ensures PushState(cfg, size, s, cell, time).Some?
    ensures
      var r := PushState(cfg, size, s, cell, time).value;
      var tex := TextureCell(cell, cfg.deltaDepth);
      |s.heap| > 0
      && var oldest := Pop(s.heap).value.0;
         oldest.cell in s.textures && !IsRoot(oldest.cell)
         && (forall j | 0 <= j < |s.heap| :: oldest.time <= s.heap[j].time)
         && r.textures[tex].idx == s.textures[oldest.cell].idx && |r.heap| == |s.heap|
         && r.textures.Keys == s.textures.Keys - {oldest.cell} + {tex}
  {
    var tex := TextureCell(cell, cfg.deltaDepth);
    assert |Pop(s.heap).value.1| == |s.heap| - 1 by {
      assert |multiset(s.heap)| == |multiset(Pop(s.heap).value.1)| + 1;
    }
    CreatedByEviction(size, s.heap, s.textures, tex, time);
    var (oldest, rest) := Pop(s.heap).value;
    var t := Replace(s.textures[oldest.cell], tex, time);
    var h, m := rest + [ItemOf(t)], (s.textures - {oldest.cell})[tex := t];
    assert PushState(cfg, size, s, cell, time) == Some(Written(cfg, s.(heap := h, textures := m), tex, cell));
  }

  /** The oldest heap entry names a non-root texture of the map. */
  lemma OldestHeld(cfg: Config, size: nat, s: State)
    requires Consistent(cfg, size, s) && |s.heap| > 0
    ensures Pop(s.heap).value.0.cell in s.textures && !IsRoot(Pop(s.heap).value.0.cell)
  {
    PopKeeps(s.heap);
  }

  /** The heap is full exactly when all the slots beyond the twelve roots hold a texture. */
  lemma HeapFullIffSlotsTaken(cfg: Config, size: nat, s: State)
    requires Consistent(cfg, size, s)
    ensures HeapFull(|s.heap|, size) <==> |NonRootKeys(s.textures)| == size - NUM_HPX_TILES_DEPTH_ZERO
  {
    DistinctCard(s.heap);
  }

  /** `update_priority` keeps the invariant and the length of the heap. */
  lemma UpdatePriorityKeeps(cfg: Config, size: nat, s: State, cell: Cell, now: int)
    requires Consistent(cfg, size, s) && HasTile(cfg, s.textures, cell)
    ensures
      var h := UpdatedHeap(cfg, s.heap, s.textures, cell, now);
      Consistent(cfg, size, s.(heap := h)) && |h| == |s.heap|
  {
    var tex := TextureCell(cell, cfg.deltaDepth);
    if !IsRoot(tex) {
      UpdateEntryKeeps(s.heap, ItemOf(s.textures[tex]).(time := now));
    }
  }

  /** The cell `get_nearest_parent` returns is the nearest ancestor that is available or is a
      root: every ancestor strictly between the two is unavailable. */
  lemma {:induction false} NearestParentIsNearest(cfg: Config, m: map<Cell, Texture>, c: Cell)
    requires !IsRoot(c)
    ensures
      var p := NearestParent(cfg, m, c);
      var k := c.depth - p.depth;
      p == AncestorAt(c, k)
      && forall j | 1 <= j < k :: !HasAvailable(cfg, m, AncestorAt(c, j))
    decreases c.depth
  {
    var q := Parent(c);
    if !(HasAvailable(cfg, m, q) || IsRoot(q)) {
      NearestParentIsNearest(cfg, m, q);
      var p := NearestParent(cfg, m, q);
      var k := c.depth - p.depth;
      forall j | 1 <= j < k ensures !HasAvailable(cfg, m, AncestorAt(c, j)) {
        if j > 1 {
          assert AncestorAt(c, j) == AncestorAt(q, j - 1);
        }
      }
      assert AncestorAt(c, k) == AncestorAt(q, k - 1);
    }
  }

  /** With at least one tile per texture, the buffer is ready exactly when each of the twelve
      root textures has all of its tiles written. */
  lemma ReadyIffAllRoots(cfg: Config, size: nat, s: State)
    requires Consistent(cfg, size, s) && cfg.tilesPerTexture >= 1
    ensures s.ready <==> forall i | 0 <= i < NUM_HPX_TILES_DEPTH_ZERO ::
      Cell(0, i) in s.textures && |s.textures[Cell(0, i)].tiles| >= cfg.tilesPerTexture
  {
    var a := AvailableRoots(s.textures, cfg.tilesPerTexture);
    var all := AllRoots();
    forall c | c in a ensures c in all {
      ValidRoot(c);
    }
    AllRootsCard();
    if s.ready {
      SubsetSameCard(a, all);
      forall i | 0 <= i < NUM_HPX_TILES_DEPTH_ZERO
        ensures Cell(0, i) in s.textures && |s.textures[Cell(0, i)].tiles| >= cfg.tilesPerTexture
      {
        assert Cell(0, i) in all;
      }
    }
    if forall i | 0 <= i < NUM_HPX_TILES_DEPTH_ZERO ::
         Cell(0, i) in s.textures && |s.textures[Cell(0, i)].tiles| >= cfg.tilesPerTexture {
      forall c | c in all ensures c in a {
      }
      assert a == all;
    }
  }

  /** The root cells of index below n. */
  function RootsBelow(n: nat): set<Cell>
  {
    set i | 0 <= i < n :: Cell(0, i)
  }

  /** The twelve root cells. */
  function AllRoots(): set<Cell>
  {
    RootsBelow(NUM_HPX_TILES_DEPTH_ZERO)
  }

  lemma AllRootsCard()
    ensures |AllRoots()| == NUM_HPX_TILES_DEPTH_ZERO
  {
    RootsBelowCard(NUM_HPX_TILES_DEPTH_ZERO);
  }

  lemma {:induction false} RootsBelowCard(n: nat)
    ensures |RootsBelow(n)| == n
  {
    if n > 0 {
      RootsBelowCard(n - 1);
      assert RootsBelow(n) == RootsBelow(n - 1) + {Cell(0, n - 1)};
    }
  }

  lemma SubsetSameCard<T>(a: set<T>, b: set<T>)
    requires a <= b && |a| == |b|
    ensures a == b
  {
    assert |b - a| == |b| - |a|;
  }

  /** The texture buffer of one image survey. */
  class ImageSurveyTextures {
    var config: Config
    var heap: seq<Item>
    var numRootTexturesAvailable: nat
    var size: nat
    var textures: map<Cell, Texture>
    var baseTextures: seq<Texture>
    var ready: bool
    var availableTilesDuringFrame: bool

    /** What `new` establishes and no method changes: room for the twelve root textures. */
    ghost predicate Valid()
      reads this
    {
      NUM_HPX_TILES_DEPTH_ZERO <= size && |baseTextures| == NUM_HPX_TILES_DEPTH_ZERO
    }

    /** The fields `push`, `update_priority` and `is_there_available_tiles` change. */
    ghost function St(): State
      reads this
    {
      State(heap, textures, numRootTexturesAvailable, ready, availableTilesDuringFrame)
    }

    /** An empty buffer with `size` slots, twelve of them for the root textures. */
    constructor(config: Config, size: nat, now: int)
      requires size >= NUM_HPX_TILES_DEPTH_ZERO
      ensures Valid()
      ensures this.config == config && this.size == size
      ensures St() == State([], map[], 0, false, false)
      ensures forall i | 0 <= i < NUM_HPX_TILES_DEPTH_ZERO ::
        baseTextures[i] == NewTexture(Cell(0, i), i, now)
    {
      this.config := config;
      this.size := size;
      heap := [];
      textures := map[];
      baseTextures := seq(NUM_HPX_TILES_DEPTH_ZERO, (i: nat) => NewTexture(Cell(0, i), i, now));
      ready := false;
      numRootTexturesAvailable := 0;
      availableTilesDuringFrame := false;
    }

    /** `contains_tile`. */
    predicate ContainsTile(cell: Cell)
      reads this
    {
      HasTile(config, textures, cell)
    }

    /** `contains`. */
    predicate Contains(texCell: Cell)
      reads this
    {
      HasAvailable(config, textures, texCell)
    }

    /** `is_heap_full`. */
    predicate IsHeapFull()
      reads this
      requires Valid()
    {
      HeapFull(|heap|, size)
    }

    /** `get`: the texture stored for a texture cell. */
    function Get(texCell: Cell): (r: Option<Texture>)
      reads this
      ensures r.Some? <==> texCell in textures
      ensures r.Some? ==> r.value == textures[texCell]
    {
      if texCell in textures then Some(textures[texCell]) else None
    }

    /** `is_ready`. */
    function IsReady(): bool
      reads this
    {
      ready
    }

    /** `get_allsky_textures`: the textures of the twelve root cells, in index order. */
    function GetAllskyTextures(): (r: seq<Option<Texture>>)
      reads this
      ensures |r| == NUM_HPX_TILES_DEPTH_ZERO
      ensures forall i | 0 <= i < NUM_HPX_TILES_DEPTH_ZERO :: r[i] == Get(Cell(0, i))
    {
      seq(NUM_HPX_TILES_DEPTH_ZERO, (i: int) requires 0 <= i reads this => Get(Cell(0, i)))
    }

    /** The first half of `push`: a texture for texture cell tex, which has none. */
    method CreateTexture(tex: Cell, time: int) returns (panicked: bool)
      requires Valid() && tex !in textures
      modifies this`heap, this`textures
      ensures Valid()
      ensures
        var r := CreatedTexture(size, old(heap), old(textures), tex, time);
        panicked == r.None? && (r.Some? ==> heap == r.value.0 && textures == r.value.1)
    {
      if IsRoot(tex) {
        textures := textures[tex := NewTexture(tex, tex.idx, time)];
        return false;
      }
      var texture;
      if IsHeapFull() {
        var popped := Pop(heap);
        if popped.None? {
          return true;
        }
        var (oldest, rest) := popped.value;
        heap := rest;
        if oldest.cell !in textures {
          return true;
        }
        texture := Replace(textures[oldest.cell], tex, time);
        textures := textures - {oldest.cell};
      } else {
        texture := NewTexture(tex, NUM_HPX_TILES_DEPTH_ZERO + |heap|, time);
      }
      heap := heap + [ItemOf(texture)];
      textures := textures[tex := texture];
      return false;
    }

    /** The second half of `push`: write tile `cell` into the texture of tex. */
    method WriteTile(tex: Cell, cell: Cell)
      requires Valid() && tex in textures
      modifies this`textures, this`availableTilesDuringFrame, this`numRootTexturesAvailable, this`ready
      ensures Valid()
      ensures St() == Written(config, old(St()), tex, cell)
    {
      var texture := Append(textures[tex], cell);
      textures := textures[tex := texture];
      availableTilesDuringFrame := true;
      if IsRoot(tex) && IsAvailable(texture, config.tilesPerTexture) {
        numRootTexturesAvailable := numRootTexturesAvailable + 1;
        if numRootTexturesAvailable == NUM_HPX_TILES_DEPTH_ZERO {
          ready := true;
        }
      }
    }

    /** `push`: write a received tile into the texture of its texture cell, making that
        texture first if needed; `panicked` where the source panics. */
    method Push(cell: Cell, timeRequest: int) returns (panicked: bool)
      requires Valid()
      modifies this`heap, this`textures, this`availableTilesDuringFrame
      modifies this`numRootTexturesAvailable, this`ready
      ensures Valid()
      ensures
        var r := PushState(config, size, old(St()), cell, timeRequest);
        panicked == r.None? && (r.Some? ==> St() == r.value)
    {
      panicked := false;
      if ContainsTile(cell) {
        return;
      }
      var tex := TextureCell(cell, config.deltaDepth);
      if tex !in textures {
        panicked := CreateTexture(tex, timeRequest);
        if panicked {
          return;
        }
      }
      WriteTile(tex, cell);
    }

    /** `is_there_available_tiles`: read and clear the frame flag. */
    method IsThereAvailableTiles() returns (r: bool)
      requires Valid()
      modifies this`availableTilesDuringFrame
      ensures Valid()
      ensures r == old(availableTilesDuringFrame) && !availableTilesDuringFrame
    {
      r := availableTilesDuringFrame;
      availableTilesDuringFrame := false;
    }

    /** `update_priority` on a held tile, `now` standing for the clock reading. */
    method UpdatePriority(cell: Cell, now: int)
      requires Valid() && ContainsTile(cell)
      modifies this`heap
      ensures Valid()
      ensures heap == UpdatedHeap(config, old(heap), textures, cell, now)
    {
      var texCell := TextureCell(cell, config.deltaDepth);
      if IsRoot(texCell) {
        return;
      }
      var item := ItemOf(textures[texCell]).(time := now);
      heap := UpdateEntry(heap, item);
    }

    /** `get_nearest_parent`: a root cell itself, else the nearest ancestor that is available
        or is a root. */
    method GetNearestParent(cell: Cell) returns (p: Cell)
      ensures p == if IsRoot(cell) then cell else NearestParent(config, textures, cell)
    {
      if IsRoot(cell) {
        return cell;
      }
      p := Parent(cell);
      while !Contains(p) && !IsRoot(p)
        invariant p.depth < cell.depth
        invariant NearestParent(config, textures, cell)
                  == if Contains(p) || IsRoot(p) then p else NearestParent(config, textures, p)
        decreases p.depth
      {
        p := Parent(p);
      }
    }
  }
}
