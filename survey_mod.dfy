// The integer parts of src/core/src/survey/mod.rs: how finely a HEALPix cell's vertex grid is
// subdivided, the triangle indices of that grid, the depth a survey draws at, and the
// ImageSurveys collection that keys the surveys by root url and lists the layers drawing them.

module Survey {
  import opened Wrappers
  import opened HpxCell
  import opened Bits
  import SB = SurveyBuffer

  /** `num_subdivision`: how many times the side of a cell is halved for its vertex grid.
      Cells of depth 0 and 1 are subdivided until, counting the texture's delta depth, the
      grid reaches order 3; deeper cells take their count from the cell's deformation on the
      sphere, given here as `deformed`. */
  function NumSubdivision(depth: nat, deltaDepth: nat, deformed: nat): (r: nat)
    ensures depth <= 1 && depth + deltaDepth <= 3 ==> depth + deltaDepth + r == 3
    ensures depth <= 1 && depth + deltaDepth > 3 ==> r == 0
    ensures depth > 1 ==> r == deformed
  {
    if depth == 0 then
      if deltaDepth > 3 then 0 else 3 - deltaDepth
    else if depth == 1 then
      if deltaDepth > 2 then 0 else 2 - deltaDepth
    else
      deformed
  }

  // ---------------------------------------------------------------------------------------
  // The index buffer of a vertex grid (the second loop of `add_vertices_grid`)
  // ---------------------------------------------------------------------------------------

  /** The index of vertex (i, j) of a grid of n segments by side, whose vertices are stored
      row after row from position `off` on. */
  function Vertex(off: nat, n: nat, i: nat, j: nat): nat
  {
    off + j + i * (n + 1)
  }

  /** The six indices pushed for quad (i, j): its two triangles. */
  function QuadIndices(off: nat, n: nat, i: nat, j: nat): seq<nat>
  {
    [Vertex(off, n, i, j), Vertex(off, n, i, j + 1), Vertex(off, n, i + 1, j),
     Vertex(off, n, i, j + 1), Vertex(off, n, i + 1, j + 1), Vertex(off, n, i + 1, j)]
  }

  /** The indices of the first m quads of row i. */
  function RowIndices(off: nat, n: nat, i: nat, m: nat): seq<nat>
  {
    if m == 0 then [] else RowIndices(off, n, i, m - 1) + QuadIndices(off, n, i, m - 1)
  }

  /** The indices of the first m rows of quads. */
  function GridRows(off: nat, n: nat, m: nat): seq<nat>
  {
    if m == 0 then [] else GridRows(off, n, m - 1) + RowIndices(off, n, m - 1, n)
  }

  /** The indices of the whole grid of n by n quads. */
  function GridIndices(off: nat, n: nat): seq<nat>
  {
    GridRows(off, n, n)
  }

  lemma {:induction false} RowAt(off: nat, n: nat, i: nat, m: nat, j: nat, k: nat)
    requires j < m && k < 6
    ensures |RowIndices(off, n, i, m)| == 6 * m
    ensures RowIndices(off, n, i, m)[6 * j + k] == QuadIndices(off, n, i, j)[k]
  {
    RowLength(off, n, i, m - 1);
    if j < m - 1 {
      RowAt(off, n, i, m - 1, j, k);
    }
  }

  lemma {:induction false} RowLength(off: nat, n: nat, i: nat, m: nat)
    ensures |RowIndices(off, n, i, m)| == 6 * m
  {
    if m > 0 {
      RowLength(off, n, i, m - 1);
    }
  }

  lemma {:induction false} GridRowsLength(off: nat, n: nat, m: nat)
    ensures |GridRows(off, n, m)| == 6 * (n * m)
  {
    if m > 0 {
      GridRowsLength(off, n, m - 1);
      RowLength(off, n, m - 1, n);
      assert n * m == n * (m - 1) + n;
    }
  }

  /** Entry p of row i sits at position q = 6ni + p of the first m rows. */
  lemma {:induction false} GridRowsAt(off: nat, n: nat, m: nat, i: nat, p: nat, q: nat)
    requires i < m && p < 6 * n && q == 6 * (n * i) + p
    ensures |RowIndices(off, n, i, n)| == 6 * n
    ensures q < |GridRows(off, n, m)| && GridRows(off, n, m)[q] == RowIndices(off, n, i, n)[p]
  {
    RowLength(off, n, i, n);
    RowLength(off, n, m - 1, n);
    GridRowsLength(off, n, m - 1);
    var pre, row := GridRows(off, n, m - 1), RowIndices(off, n, m - 1, n);
    assert GridRows(off, n, m) == pre + row;
    assert |pre + row| == |pre| + 6 * n;
    if i < m - 1 {
      GridRowsAt(off, n, m - 1, i, p, q);
      assert q < |pre + row| && (pre + row)[q] == pre[q];
    } else {
      assert q == |pre| + p;
      assert q < |pre + row| && (pre + row)[q] == row[p];
    }
  }

  lemma {:induction false} QuadStart(n: nat, i: nat, j: nat, k: nat)
    ensures 6 * (i * n + j) + k == 6 * (n * i) + (6 * j + k)
  {
  }

  /** The grid has six indices per quad. */
  lemma GridLength(off: nat, n: nat)
    ensures |GridIndices(off, n)| == 6 * (n * n)
  {
    GridRowsLength(off, n, n);
  }

  /** Quad (i, j) holds entries 6(in + j) to 6(in + j) + 5 of the grid: the loops run over
      rows, then over the quads of a row. */
  lemma {:induction false} GridIndicesAt(off: nat, n: nat, i: nat, j: nat, k: nat)
    requires i < n && j < n && k < 6
    ensures 6 * (i * n + j) + k < |GridIndices(off, n)|
    ensures GridIndices(off, n)[6 * (i * n + j) + k] == QuadIndices(off, n, i, j)[k]
  {
    QuadStart(n, i, j, k);
    GridRowsAt(off, n, n, i, 6 * j + k, 6 * (i * n + j) + k);
    RowAt(off, n, i, n, j, k);
    QuadStart(n, i, j, k);
  }

  lemma {:induction false} QuadBound(off: nat, n: nat, i: nat, j: nat)
    requires i < n && j < n
    ensures forall x | x in QuadIndices(off, n, i, j) :: off <= x < off + (n + 1) * (n + 1)
  {
    assert (i + 1) * (n + 1) <= n * (n + 1) by {
      MulLeft(i + 1, n, n + 1);
    }
  }

  lemma {:induction false} MulLeft(a: nat, b: nat, c: nat)
    requires a <= b
    ensures a * c <= b * c
  {
  }

  lemma {:induction false} RowsBound(off: nat, n: nat, m: nat)
    requires m <= n
    ensures forall x | x in GridRows(off, n, m) :: off <= x < off + (n + 1) * (n + 1)
  {
    if m > 0 {
      RowsBound(off, n, m - 1);
      RowBound(off, n, m - 1, n);
    }
  }

  lemma {:induction false} RowBound(off: nat, n: nat, i: nat, m: nat)
    requires i < n && m <= n
    ensures forall x | x in RowIndices(off, n, i, m) :: off <= x < off + (n + 1) * (n + 1)
  {
    if m > 0 {
      RowBound(off, n, i, m - 1);
      QuadBound(off, n, i, m - 1);
    }
  }

  /** Every index of the grid names one of its (n + 1)^2 vertices. */
  lemma {:induction false} GridBound(off: nat, n: nat)
    ensures forall x | x in GridIndices(off, n) :: off <= x < off + (n + 1) * (n + 1)
  {
    RowsBound(off, n, n);
  }

  /** Every vertex of a grid of at least one quad is used by some triangle. */
  lemma {:induction false} GridCovers(off: nat, n: nat, v: nat)
    requires n >= 1 && v < (n + 1) * (n + 1)
    ensures off + v in GridIndices(off, n)
  {
    var a, b := DivMod(v, n + 1);
    var i, j, k := QuadOfVertex(off, n, a, b);
    QuadInGrid(off, n, i, j, k);
  }

  /** Every corner of every quad is among the grid's indices. */
  lemma QuadInGrid(off: nat, n: nat, i: nat, j: nat, k: nat)
    requires i < n && j < n && k < 6
    ensures QuadIndices(off, n, i, j)[k] in GridIndices(off, n)
  {
    GridIndicesAt(off, n, i, j, k);
  }

  /** Vertex (a, b) is corner k of quad (i, j): the quad it starts, or for the last row or
      column the quad before it. */
  lemma {:induction false} QuadOfVertex(off: nat, n: nat, a: nat, b: nat)
    returns (i: nat, j: nat, k: nat)
    requires n >= 1 && a <= n && b <= n
    ensures i < n && j < n && k < 6
    ensures QuadIndices(off, n, i, j)[k] == Vertex(off, n, a, b)
  {
    i := if a == n then n - 1 else a;
    j := if b == n then n - 1 else b;
    k := if a < n then (if b < n then 0 else 1) else (if b < n then 2 else 4);
  }

  /** Vertex v of a grid of w vertices by side, as a row a and a column b. */
  lemma {:induction false} DivMod(v: nat, w: nat) returns (a: nat, b: nat)
    requires 0 < w && v < w * w
    ensures v == b + a * w && a < w && b < w
  {
    a, b := v / w, v % w;
    if a >= w {
      MulLeft(w, a, w);
    }
  }

  /** The indices are `u16`s: one more than the largest. */
  const U16_LIMIT: nat := 0x1_0000

  /** The index loops of `add_vertices_grid` for a cell subdivided `numSub` times, whose
      vertices start at position `off` of the vertex buffer. The offset and the indices are cast
      to `u16` and added as `u16`s; the model covers the grids whose vertices all have a `u16`
      index, where the casts are exact and the sums do not overflow, and there every index it
      appends is a valid `u16`. */
  method AddGridIndices(idxPositions: seq<nat>, off: nat, numSub: nat) returns (r: seq<nat>)
    requires off + (Pow2(numSub) + 1) * (Pow2(numSub) + 1) <= U16_LIMIT
    ensures r == idxPositions + GridIndices(off, Pow2(numSub))
    ensures forall x | x in r[|idxPositions|..] :: x < U16_LIMIT
  {
    var n := Pow2(numSub);
    var nVertices := n + 1;
    r := idxPositions;
    for i := 0 to n
      invariant r == idxPositions + GridRows(off, n, i)
    {
      for j := 0 to n
        invariant r == idxPositions + GridRows(off, n, i) + RowIndices(off, n, i, j)
      {
        var idx0 := j + i * nVertices;
        var idx1 := j + 1 + i * nVertices;
        var idx2 := j + (i + 1) * nVertices;
        var idx3 := j + 1 + (i + 1) * nVertices;
        r := r + [off + idx0, off + idx1, off + idx2, off + idx1, off + idx3, off + idx2];
      }
    }
    GridFitsU16(idxPositions, r, off, n);
  }

  lemma GridFitsU16(before: seq<nat>, r: seq<nat>, off: nat, n: nat)
    requires r == before + GridIndices(off, n) && off + (n + 1) * (n + 1) <= U16_LIMIT
    ensures forall x | x in r[|before|..] :: x < U16_LIMIT
  {
    assert r[|before|..] == GridIndices(off, n);
    GridBound(off, n);
  }

  // ---------------------------------------------------------------------------------------
  // The depth a survey draws at
  // ---------------------------------------------------------------------------------------

  function Min(a: nat, b: nat): nat
  {
    if a < b then a else b
  }

  /** `refresh_view`: the tile depth is the camera's, capped by the survey's deepest tiles;
      the texture depth lies `deltaDepth` above it, and is 0 where that would go below 0. */
  function ViewDepth(cameraDepth: nat, maxTileDepth: nat, deltaDepth: nat): (r: nat)
    ensures r <= cameraDepth && r <= maxTileDepth
    ensures r == 0 || r + deltaDepth == Min(cameraDepth, maxTileDepth)
    ensures Min(cameraDepth, maxTileDepth) >= deltaDepth ==>
      r + deltaDepth == Min(cameraDepth, maxTileDepth)
  {
    var depthTile := Min(cameraDepth, maxTileDepth);
    if depthTile > deltaDepth then depthTile - deltaDepth else 0
  }

  /** Zooming in never lowers the depth a survey draws at. */
  lemma ViewDepthMonotonic(c1: nat, c2: nat, maxTileDepth: nat, deltaDepth: nat)
    requires c1 <= c2
    ensures ViewDepth(c1, maxTileDepth, deltaDepth) <= ViewDepth(c2, maxTileDepth, deltaDepth)
  {
  }

  // ---------------------------------------------------------------------------------------
  // One survey
  // ---------------------------------------------------------------------------------------

  /** What HiPSConfig holds and these operations read: the root url, the deepest tile order,
      the depth of a tile inside its texture, tiles per texture, and the texture count. */
  datatype HipsConfig = HipsConfig(rootUrl: string, maxTileDepth: nat, deltaDepth: nat,
                                   tilesPerTexture: nat, numTextures: nat)

  /** `ImageSurvey`: the survey's root url and deepest tile order (kept by the source in its
      texture buffer's HiPSConfig), the texture buffer's configuration, slot count and state,
      and the depth the survey draws at. */
  datatype Survey = Survey(rootUrl: string, maxTileDepth: nat, texConfig: SB.Config, size: nat,
                           textures: SB.State, depth: nat)

  /** A survey whose texture buffer keeps its invariant. */
  predicate SurveyOk(s: Survey)
  {
    SB.Consistent(s.texConfig, s.size, s.textures)
  }

  /** `ImageSurvey::new`, its vertex buffers left out: an empty texture buffer, drawn at
      depth 0. */
  function NewSurvey(config: HipsConfig): (s: Survey)
    ensures s.depth == 0 && s.rootUrl == config.rootUrl
    ensures s.maxTileDepth == config.maxTileDepth && s.texConfig.deltaDepth == config.deltaDepth
    ensures s.textures.heap == [] && s.textures.textures == map[]
  {
    Survey(config.rootUrl, config.maxTileDepth,
           SB.Config(config.deltaDepth, config.tilesPerTexture), config.numTextures,
           SB.State([], map[], 0, false, false), 0)
  }

  /** A new survey's texture buffer starts out keeping its invariant. */
  lemma NewSurveyOk(config: HipsConfig)
    requires config.numTextures >= NUM_HPX_TILES_DEPTH_ZERO
    ensures SurveyOk(NewSurvey(config))
  {
    SB.InitialConsistent(SB.Config(config.deltaDepth, config.tilesPerTexture), config.numTextures);
  }

  /** `refresh_view`, `cameraDepth` standing for the depth the camera's field of view asks
      for (computed from floating-point screen geometry). */
  function RefreshView(s: Survey, cameraDepth: nat): Survey
  {
    s.(depth := ViewDepth(cameraDepth, s.maxTileDepth, s.texConfig.deltaDepth))
  }

  /** `update_priority_tile`: whether the tile is held, and the survey with the tile's
      texture requested again at `now` when it is. */
  function UpdatePriorityTile(s: Survey, cell: Cell, now: int): (Survey, bool)
  {
    if SB.HasTile(s.texConfig, s.textures.textures, cell) then
      (s.(textures := s.textures.(heap := SB.UpdatedHeap(s.texConfig, s.textures.heap,
                                                          s.textures.textures, cell, now))),
       true)
    else
      (s, false)
  }

  /** `update_priority_tile` answers true exactly for a held tile, changes only the heap's
      order, and keeps the texture buffer's invariant. */
  lemma UpdatePriorityTileKeeps(s: Survey, cell: Cell, now: int)
    requires SurveyOk(s)
    ensures
      var (s', present) := UpdatePriorityTile(s, cell, now);
      present == SB.HasTile(s.texConfig, s.textures.textures, cell)
      && SurveyOk(s') && |s'.textures.heap| == |s.textures.heap|
      && s'.textures.textures == s.textures.textures
      && s' == s.(textures := s.textures.(heap := s'.textures.heap))
  {
    if SB.HasTile(s.texConfig, s.textures.textures, cell) {
      SB.UpdatePriorityKeeps(s.texConfig, s.size, s.textures, cell, now);
    }
  }

  /** The parts of ImageSurveyMeta these operations read. */
  datatype SurveyMeta = SurveyMeta(visible: bool, longitudeReversed: bool)

  /** `SimpleHiPS`: a layer name, the url and deepest order of its HiPS properties, its
      metadata, and the HiPSConfig built from its properties, None where building it fails. */
  datatype SimpleHips = SimpleHips(layer: string, url: string, maxOrder: nat, meta: SurveyMeta,
                                   config: Option<HipsConfig>)

  datatype SurveysError = UrlNotFound(url: string) | DuplicateLayer(layer: string)
                        | ConfigFailed(layer: string)

  predicate Distinct(s: seq<string>)
  {
    forall i, j | 0 <= j < i < |s| :: s[j] != s[i]
  }

  function LayerNames(hipses: seq<SimpleHips>): (r: seq<string>)
    ensures |r| == |hipses| && forall k | 0 <= k < |hipses| :: r[k] == hipses[k].layer
  {
    seq(|hipses|, k requires 0 <= k < |hipses| => hipses[k].layer)
  }

  function Urls(hipses: seq<SimpleHips>): set<string>
  {
    set k | 0 <= k < |hipses| :: hipses[k].url
  }

  /** The url `set_image_surveys` leaves as the most precise survey: scanning from the front,
      a HiPS replaces the current choice when its order exceeds every order seen so far
      (`best`, starting from 0). */
  function MostPrecise(hipses: seq<SimpleHips>, best: nat, url: string): string
  {
    if hipses == [] then url
    else if hipses[0].maxOrder > best then MostPrecise(hipses[1..], hipses[0].maxOrder, hipses[0].url)
    else MostPrecise(hipses[1..], best, url)
  }

  /** Where no order exceeds `best`, the previous choice stays. */
  lemma {:induction false} MostPreciseKeeps(hipses: seq<SimpleHips>, best: nat, url: string)
    requires forall k | 0 <= k < |hipses| :: hipses[k].maxOrder <= best
    ensures MostPrecise(hipses, best, url) == url
  {
    if hipses != [] {
      MostPreciseKeeps(hipses[1..], best, url);
    }
  }

  /** Otherwise the choice is the url of the first HiPS of greatest order. */
  lemma {:induction false} MostPreciseIsFirstDeepest(hipses: seq<SimpleHips>, best: nat,
                                                     url: string, k: nat)
    requires k < |hipses| && hipses[k].maxOrder > best
    requires forall k' | 0 <= k' < |hipses| :: hipses[k'].maxOrder <= hipses[k].maxOrder
    requires forall k' | 0 <= k' < k :: hipses[k'].maxOrder < hipses[k].maxOrder
    ensures MostPrecise(hipses, best, url) == hipses[k].url
  {
    var h := hipses[0];
    if k == 0 {
      MostPreciseKeeps(hipses[1..], h.maxOrder, h.url);
    } else if h.maxOrder > best {
      MostPreciseIsFirstDeepest(hipses[1..], h.maxOrder, h.url, k - 1);
    } else {
      MostPreciseIsFirstDeepest(hipses[1..], best, url, k - 1);
    }
  }

  /** The duplicate check of `set_image_surveys`: the first position holding a name that
      also appears before it, or None where the names are distinct. */
  method FindDuplicate(names: seq<string>) returns (r: Option<nat>)
    ensures r.None? <==> Distinct(names)
    ensures r.Some? ==>
      r.value < |names| && Distinct(names[..r.value])
      && exists j | 0 <= j < r.value :: names[j] == names[r.value]
  {
    for i := 0 to |names|
      invariant Distinct(names[..i])
    {
      for j := 0 to i
        invariant forall j' | 0 <= j' < j :: names[j'] != names[i]
      {
        if names[i] == names[j] {
          return Some(i);
        }
      }
      assert names[..i + 1] == names[..i] + [names[i]];
    }
    assert names[..|names|] == names;
    return None;
  }

  /** The metadata map `set_image_surveys` fills, one layer after the other. */
  function MetaOf(hipses: seq<SimpleHips>): map<string, SurveyMeta>
  {
    if hipses == [] then map[]
    else MetaOf(hipses[..|hipses| - 1])[hipses[|hipses| - 1].layer := hipses[|hipses| - 1].meta]
  }

  /** The layer-to-url map `set_image_surveys` fills, one layer after the other. */
  function UrlsOf(hipses: seq<SimpleHips>): map<string, string>
  {
    if hipses == [] then map[]
    else UrlsOf(hipses[..|hipses| - 1])[hipses[|hipses| - 1].layer := hipses[|hipses| - 1].url]
  }

  /** Whether some layer asks for a reversed longitude axis. */
  predicate AnyReversed(hipses: seq<SimpleHips>)
  {
    exists k | 0 <= k < |hipses| :: hipses[k].meta.longitudeReversed
  }

  /** The position of the first HiPS with url u, or |hipses| where there is none. */
  function FirstIndex(hipses: seq<SimpleHips>, u: string): (k: nat)
    ensures k <= |hipses|
  {
    if hipses == [] then 0
    else if hipses[0].url == u then 0
    else 1 + FirstIndex(hipses[1..], u)
  }

  /** FirstIndex finds the first HiPS with the url, and only a missing url goes past the end. */
  lemma {:induction false} FirstIndexSpec(hipses: seq<SimpleHips>, u: string)
    ensures var k := FirstIndex(hipses, u);
      (k < |hipses| <==> u in Urls(hipses))
      && (k < |hipses| ==> hipses[k].url == u)
      && forall k' | 0 <= k' < k :: hipses[k'].url != u
  {
    if hipses != [] && hipses[0].url != u {
      FirstIndexSpec(hipses[1..], u);
      assert forall k' | 1 <= k' < |hipses| :: hipses[k'] == hipses[1..][k' - 1];
      if u in Urls(hipses) {
        var k' :| 0 <= k' < |hipses| && hipses[k'].url == u;
        assert hipses[1..][k' - 1].url == u;
      }
    }
  }

  /** A url not seen before position k is first seen at k. */
  lemma FirstIndexAt(hipses: seq<SimpleHips>, k: nat)
    requires k < |hipses| && hipses[k].url !in Urls(hipses[..k])
    ensures FirstIndex(hipses, hipses[k].url) == k
  {
    var u := hipses[k].url;
    FirstIndexSpec(hipses, u);
  }

  /** What one more HiPS adds to the maps and lists built from a prefix. */
  lemma PrefixStep(hipses: seq<SimpleHips>, k: nat)
    requires k < |hipses|
    ensures
      var h, p, p' := hipses[k], hipses[..k], hipses[..k + 1];
      MetaOf(p') == MetaOf(p)[h.layer := h.meta] && UrlsOf(p') == UrlsOf(p)[h.layer := h.url]
      && LayerNames(p') == LayerNames(p) + [h.layer]
      && Urls(p') == Urls(p) + {h.url}
      && AnyReversed(p') == (AnyReversed(p) || h.meta.longitudeReversed)
  {
    var p, p' := hipses[..k], hipses[..k + 1];
    assert p'[..k] == p;
    assert forall i | 0 <= i < k :: p'[i] == p[i];
  }

  /** One step of the most-precise scan. */
  lemma MostPreciseStep(hipses: seq<SimpleHips>, k: nat, best: nat, url: string)
    requires k < |hipses|
    ensures MostPrecise(hipses[k..], best, url)
      == if hipses[k].maxOrder > best then MostPrecise(hipses[k + 1..], hipses[k].maxOrder, hipses[k].url)
         else MostPrecise(hipses[k + 1..], best, url)
  {
    assert hipses[k..][1..] == hipses[k + 1..];
  }

  /** The metadata map has exactly the layer names as keys. */
  lemma {:induction false} MetaOfKeys(hipses: seq<SimpleHips>)
    ensures forall l :: l in MetaOf(hipses) <==> l in LayerNames(hipses)
  {
    if hipses != [] {
      var n := |hipses| - 1;
      MetaOfKeys(hipses[..n]);
      assert LayerNames(hipses) == LayerNames(hipses[..n]) + [hipses[n].layer];
    }
  }

  /** The url map has exactly the layer names as keys. */
  lemma {:induction false} UrlsOfKeys(hipses: seq<SimpleHips>)
    ensures forall l :: l in UrlsOf(hipses) <==> l in LayerNames(hipses)
  {
    if hipses != [] {
      var n := |hipses| - 1;
      UrlsOfKeys(hipses[..n]);
      assert LayerNames(hipses) == LayerNames(hipses[..n]) + [hipses[n].layer];
    }
  }

  /** A prefix of distinct names is distinct. */
  lemma DistinctInit(hipses: seq<SimpleHips>)
    requires hipses != [] && Distinct(LayerNames(hipses))
    ensures Distinct(LayerNames(hipses[..|hipses| - 1]))
    ensures forall k | 0 <= k < |hipses| - 1 :: hipses[k].layer != hipses[|hipses| - 1].layer
  {
    assert LayerNames(hipses) == LayerNames(hipses[..|hipses| - 1]) + [hipses[|hipses| - 1].layer];
  }

  /** With distinct layer names, every layer gets its own metadata. */
  lemma {:induction false} MetaOfValues(hipses: seq<SimpleHips>)
    requires Distinct(LayerNames(hipses))
    ensures forall k | 0 <= k < |hipses| ::
      hipses[k].layer in MetaOf(hipses) && MetaOf(hipses)[hipses[k].layer] == hipses[k].meta
  {
    if hipses != [] {
      var n := |hipses| - 1;
      DistinctInit(hipses);
      MetaOfValues(hipses[..n]);
      assert forall k | 0 <= k < n :: hipses[..n][k] == hipses[k];
    }
  }

  /** With distinct layer names, every layer gets its own url. */
  lemma {:induction false} UrlsOfValues(hipses: seq<SimpleHips>)
    requires Distinct(LayerNames(hipses))
    ensures forall k | 0 <= k < |hipses| ::
      hipses[k].layer in UrlsOf(hipses) && UrlsOf(hipses)[hipses[k].layer] == hipses[k].url
  {
    if hipses != [] {
      var n := |hipses| - 1;
      DistinctInit(hipses);
      UrlsOfValues(hipses[..n]);
      assert forall k | 0 <= k < n :: hipses[..n][k] == hipses[k];
    }
  }

  /** Every url of a layer is the url of one of the HiPSes. */
  lemma {:induction false} UrlsOfInUrls(hipses: seq<SimpleHips>)
    ensures forall l | l in UrlsOf(hipses) :: UrlsOf(hipses)[l] in Urls(hipses)
  {
    if hipses != [] {
      var n := |hipses| - 1;
      UrlsOfInUrls(hipses[..n]);
      assert forall k | 0 <= k < n :: hipses[..n][k] == hipses[k];
    }
  }

  /** Every layer's url names a survey. */
  predicate UrlsResolved(urls: map<string, string>, surveyUrls: set<string>)
  {
    forall l | l in urls :: urls[l] in surveyUrls
  }

  /** The layer urls after `set_survey_url` moved a survey from past to next. */
  function Rekeyed(urls: map<string, string>, past: string, next: string): map<string, string>
  {
    map l | l in urls :: if urls[l] == past then next else urls[l]
  }

  /** Moving a survey to a new url keeps every layer pointing at a survey, and no layer keeps
      the old url unless the new one is the same. */
  lemma RekeyedResolves(urls: map<string, string>, surveyUrls: set<string>, past: string,
                        next: string)
    requires UrlsResolved(urls, surveyUrls) && past in surveyUrls
    ensures UrlsResolved(Rekeyed(urls, past, next), surveyUrls - {past} + {next})
    ensures Rekeyed(urls, past, next).Keys == urls.Keys
    ensures past != next ==> forall l | l in urls :: Rekeyed(urls, past, next)[l] != past
  {
  }

  /** The layer list, maps and reversal flag built from the first k HiPSes. */
  ghost predicate FilledLayers(hipses: seq<SimpleHips>, k: nat, ms: map<string, SurveyMeta>,
                               us: map<string, string>, ls: seq<string>, reversed: bool)
    requires k <= |hipses|
  {
    ls == LayerNames(hipses[..k]) && ms == MetaOf(hipses[..k]) && us == UrlsOf(hipses[..k])
    && reversed == AnyReversed(hipses[..k])
  }

  /** The surveys after the first k HiPSes: the ones from `before` untouched, and one new
      survey per url not already there, made from the config of its first HiPS. */
  ghost predicate FilledSurveys(hipses: seq<SimpleHips>, k: nat, before: map<string, Survey>,
                                ss: map<string, Survey>)
    requires k <= |hipses|
  {
    ss.Keys == before.Keys + Urls(hipses[..k])
    && (forall u | u in before :: ss[u] == before[u])
    && (forall u | u in ss && u !in before ::
          FirstIndex(hipses, u) < k && hipses[FirstIndex(hipses, u)].config.Some?
          && ss[u] == NewSurvey(hipses[FirstIndex(hipses, u)].config.value))
  }

  /** What the loop of `set_image_surveys` has built after the first k HiPSes, starting
      from the surveys `before` and the most precise url `best0`. */
  ghost predicate Filled(hipses: seq<SimpleHips>, k: nat, before: map<string, Survey>,
                         best0: string, ss: map<string, Survey>, ms: map<string, SurveyMeta>,
                         us: map<string, string>, ls: seq<string>, best: string, maxDepth: nat,
                         reversed: bool)
  {
    k <= |hipses|
    && (forall k' | 0 <= k' < k :: hipses[k'].config.Some?)
    && FilledLayers(hipses, k, ms, us, ls, reversed)
    && MostPrecise(hipses[k..], maxDepth, best) == MostPrecise(hipses, 0, best0)
    && FilledSurveys(hipses, k, before, ss)
  }

  /** One HiPS more extends the layer list and maps. */
  lemma LayersStep(hipses: seq<SimpleHips>, k: nat, ms: map<string, SurveyMeta>,
                   us: map<string, string>, ls: seq<string>, reversed: bool)
    requires k < |hipses| && FilledLayers(hipses, k, ms, us, ls, reversed)
    ensures var h := hipses[k];
      FilledLayers(hipses, k + 1, ms[h.layer := h.meta], us[h.layer := h.url], ls + [h.layer],
                   reversed || h.meta.longitudeReversed)
  {
    PrefixStep(hipses, k);
  }

  /** One HiPS more adds its survey when its url is new ... */
  lemma SurveysStepNew(hipses: seq<SimpleHips>, k: nat, before: map<string, Survey>,
                       ss: map<string, Survey>)
    requires k < |hipses| && hipses[k].config.Some? && FilledSurveys(hipses, k, before, ss)
    requires hipses[k].url !in ss
    ensures FilledSurveys(hipses, k + 1, before,
                          ss[hipses[k].url := NewSurvey(hipses[k].config.value)])
  {
    var h := hipses[k];
    PrefixStep(hipses, k);
    FirstIndexAt(hipses, k);
    var ss' := ss[h.url := NewSurvey(h.config.value)];
    forall u | u in ss' && u !in before
      ensures FirstIndex(hipses, u) < k + 1 && hipses[FirstIndex(hipses, u)].config.Some?
      ensures ss'[u] == NewSurvey(hipses[FirstIndex(hipses, u)].config.value)
    {
      if u != h.url {
        assert u in ss;
      }
    }
  }

  /** ... and leaves the surveys as they are otherwise. */
  lemma SurveysStepSeen(hipses: seq<SimpleHips>, k: nat, before: map<string, Survey>,
                        ss: map<string, Survey>)
    requires k < |hipses| && FilledSurveys(hipses, k, before, ss)
    requires hipses[k].url in ss
    ensures FilledSurveys(hipses, k + 1, before, ss)
  {
    PrefixStep(hipses, k);
    assert ss.Keys == before.Keys + Urls(hipses[..k + 1]);
  }

  /** One turn of the loop keeps `Filled`. */
  lemma FillStep(hipses: seq<SimpleHips>, k: nat, before: map<string, Survey>, best0: string,
                 ss: map<string, Survey>, ms: map<string, SurveyMeta>, us: map<string, string>,
                 ls: seq<string>, best: string, maxDepth: nat, reversed: bool)
    requires Filled(hipses, k, before, best0, ss, ms, us, ls, best, maxDepth, reversed)
    requires k < |hipses| && hipses[k].config.Some?
    ensures
      var h := hipses[k];
      var deeper := h.maxOrder > maxDepth;
      Filled(hipses, k + 1, before, best0,
             if h.url in ss then ss else ss[h.url := NewSurvey(h.config.value)],
             ms[h.layer := h.meta], us[h.layer := h.url], ls + [h.layer],
             if deeper then h.url else best, if deeper then h.maxOrder else maxDepth,
             reversed || h.meta.longitudeReversed)
  {
    LayersStep(hipses, k, ms, us, ls, reversed);
    if hipses[k].url in ss {
      SurveysStepSeen(hipses, k, before, ss);
    } else {
      SurveysStepNew(hipses, k, before, ss);
    }
    MostPreciseStep(hipses, k, maxDepth, best);
  }

  /** After the last HiPS, `Filled` is the outcome `set_image_surveys` promises. */
  lemma FillDone(hipses: seq<SimpleHips>, before: map<string, Survey>, best0: string,
                 ss: map<string, Survey>, ms: map<string, SurveyMeta>, us: map<string, string>,
                 ls: seq<string>, best: string, maxDepth: nat, reversed: bool)
    requires Filled(hipses, |hipses|, before, best0, ss, ms, us, ls, best, maxDepth, reversed)
    ensures forall k | 0 <= k < |hipses| :: hipses[k].config.Some?
    ensures ls == LayerNames(hipses) && ms == MetaOf(hipses) && us == UrlsOf(hipses)
    ensures best == MostPrecise(hipses, 0, best0) && reversed == AnyReversed(hipses)
    ensures ss.Keys == before.Keys + Urls(hipses)
    ensures forall u | u in before :: ss[u] == before[u]
    ensures forall u | u in ss && u !in before ::
      FirstIndex(hipses, u) < |hipses| && hipses[FirstIndex(hipses, u)].config.Some?
      && ss[u] == NewSurvey(hipses[FirstIndex(hipses, u)].config.value)
  {
    assert hipses[..|hipses|] == hipses;
    assert hipses[|hipses|..] == [];
  }

  /** What the loop of `refresh_views` has done once the urls in `todo` are left: the other
      surveys refreshed, and `deepest` the greatest depth among them (0 for none), reached at
      `deepestUrl`. */
  ghost predicate RefreshedSoFar(before: map<string, Survey>, cameraDepth: nat, todo: set<string>,
                                 refreshed: map<string, Survey>, deepest: nat, deepestUrl: string)
  {
    todo <= refreshed.Keys == before.Keys
    && (forall u | u in refreshed ::
          refreshed[u] == if u in todo then before[u] else RefreshView(before[u], cameraDepth))
    && (forall u | u in refreshed && u !in todo :: refreshed[u].depth <= deepest)
    && (deepest == 0
        || (deepestUrl in refreshed && deepestUrl !in todo && refreshed[deepestUrl].depth == deepest))
  }

  /** Refreshing one more survey keeps `RefreshedSoFar`. */
  lemma RefreshStep(before: map<string, Survey>, cameraDepth: nat, todo: set<string>,
                    refreshed: map<string, Survey>, deepest: nat, deepestUrl: string, u: string)
    requires RefreshedSoFar(before, cameraDepth, todo, refreshed, deepest, deepestUrl)
    requires u in todo
    ensures var survey := RefreshView(refreshed[u], cameraDepth);
      var deeper := survey.depth > deepest;
      RefreshedSoFar(before, cameraDepth, todo - {u}, refreshed[u := survey],
                     if deeper then survey.depth else deepest, if deeper then u else deepestUrl)
  {
  }

  /** Once nothing is left, every survey is refreshed and `deepest` is their greatest depth. */
  lemma RefreshDone(before: map<string, Survey>, cameraDepth: nat, refreshed: map<string, Survey>,
                    deepest: nat, deepestUrl: string)
    requires RefreshedSoFar(before, cameraDepth, {}, refreshed, deepest, deepestUrl)
    ensures refreshed == map u | u in before :: RefreshView(before[u], cameraDepth)
    ensures forall u | u in refreshed :: refreshed[u].depth <= deepest
    ensures deepest == 0 || exists u | u in refreshed :: refreshed[u].depth == deepest
  {
  }

  /** The surveys `set_image_surveys` ends with: those of `before` whose root url some HiPS
      still names, unchanged, and a new one for every other url of the HiPSes. */
  lemma KeptOrNew(hipses: seq<SimpleHips>, before: map<string, Survey>, kept: map<string, Survey>,
                  after: map<string, Survey>)
    requires kept == map u | u in before && before[u].rootUrl in Urls(hipses) :: before[u]
    requires after.Keys == kept.Keys + Urls(hipses)
    requires forall u | u in kept :: after[u] == kept[u]
    requires forall u | u in after && u !in kept ::
      FirstIndex(hipses, u) < |hipses| && hipses[FirstIndex(hipses, u)].config.Some?
      && after[u] == NewSurvey(hipses[FirstIndex(hipses, u)].config.value)
    ensures forall u :: u in after <==>
      u in Urls(hipses) || (u in before && before[u].rootUrl in Urls(hipses))
    ensures forall u | u in after ::
      if u in before && before[u].rootUrl in Urls(hipses) then after[u] == before[u]
      else
        FirstIndex(hipses, u) < |hipses| && hipses[FirstIndex(hipses, u)].config.Some?
        && after[u] == NewSurvey(hipses[FirstIndex(hipses, u)].config.value)
  {
  }

  /** `ImageSurveys`: the surveys by root url, the layers in drawing order, each layer's
      metadata and survey url, the url of the deepest survey, and the depth to draw at. */
  class ImageSurveys {
    var surveys: map<string, Survey>
    var meta: map<string, SurveyMeta>
    var urls: map<string, string>
    var layers: seq<string>
    var mostPreciseSurvey: string
    var depth: nat

    /** `new`. */
    constructor()
      ensures surveys == map[] && meta == map[] && urls == map[] && layers == []
      ensures mostPreciseSurvey == "" && depth == 0
    {
      surveys := map[];
      meta := map[];
      urls := map[];
      layers := [];
      mostPreciseSurvey := "";
      depth := 0;
    }

    /** `set_survey_url`: move the survey at url past to url next, and point its layers and
        the most precise survey there. */
    method SetSurveyUrl(past: string, next: string) returns (res: Result<(), SurveysError>)
      modifies this`surveys, this`urls, this`mostPreciseSurvey
      ensures past !in old(surveys) ==>
        res == Err(UrlNotFound(past)) && surveys == old(surveys) && urls == old(urls)
        && mostPreciseSurvey == old(mostPreciseSurvey)
      ensures past in old(surveys) ==>
        res.Ok?
        && surveys == (old(surveys) - {past})[next := old(surveys)[past].(rootUrl := next)]
        && urls == Rekeyed(old(urls), past, next)
        && mostPreciseSurvey == (if old(mostPreciseSurvey) == past then next else old(mostPreciseSurvey))
    {
      if past !in surveys {
        return Err(UrlNotFound(past));
      }
      var survey := surveys[past];
      surveys := surveys - {past};
      survey := survey.(rootUrl := next);
      surveys := surveys[next := survey];
      urls := map l | l in urls :: if urls[l] == past then next else urls[l];
      if mostPreciseSurvey == past {
        mostPreciseSurvey := next;
      }
      return Ok(());
    }

    /** `refresh_views`: every survey recomputes its depth from the camera's, and the
        collection draws at the greatest of them (0 without surveys). */
    method RefreshViews(cameraDepth: nat)
      modifies this`depth, this`surveys
      ensures surveys == map u | u in old(surveys) :: RefreshView(old(surveys)[u], cameraDepth)
      ensures forall u | u in surveys :: surveys[u].depth <= depth
      ensures depth == 0 || exists u | u in surveys :: surveys[u].depth == depth
    {
      var before, refreshed, deepest := surveys, surveys, 0;
      var todo := surveys.Keys;
      ghost var deepestUrl := "";
      while todo != {}
        invariant RefreshedSoFar(before, cameraDepth, todo, refreshed, deepest, deepestUrl)
        decreases |todo|
      {
        var u :| u in todo;
        RefreshStep(before, cameraDepth, todo, refreshed, deepest, deepestUrl, u);
        var survey := RefreshView(refreshed[u], cameraDepth);
        refreshed := refreshed[u := survey];
        if survey.depth > deepest {
          deepest := survey.depth;
          deepestUrl := u;
        }
        todo := todo - {u};
      }
      RefreshDone(before, cameraDepth, refreshed, deepest, deepestUrl);
      surveys, depth := refreshed, deepest;
    }

    /** `set_image_surveys`: replace the layers by the given HiPSes, keeping the surveys
        still in use and creating the missing ones; the result is the longitude flag given
        to the camera. */
    method SetImageSurveys(hipses: seq<SimpleHips>) returns (res: Result<bool, SurveysError>)
      modifies this`surveys, this`meta, this`urls, this`layers, this`mostPreciseSurvey
      ensures !Distinct(LayerNames(hipses)) <==> res.Err? && res.error.DuplicateLayer?
      ensures res.Err? && res.error.DuplicateLayer? ==>
        unchanged(this)
        && exists i, j | 0 <= j < i < |hipses| :: hipses[j].layer == hipses[i].layer == res.error.layer
      ensures res.Err? && res.error.ConfigFailed? ==>
        exists k | 0 <= k < |hipses| ::
          hipses[k].config.None? && res.error.layer == hipses[k].layer
          && forall k' | 0 <= k' < k :: hipses[k'].config.Some?
      ensures Distinct(LayerNames(hipses)) ==>
        (res.Err? <==> exists k | 0 <= k < |hipses| :: hipses[k].config.None?)
      ensures res.Ok? ==>
        layers == LayerNames(hipses) && meta == MetaOf(hipses) && urls == UrlsOf(hipses)
        && UrlsResolved(urls, surveys.Keys)
        && mostPreciseSurvey == MostPrecise(hipses, 0, old(mostPreciseSurvey))
        && res.value == AnyReversed(hipses)
      ensures res.Ok? ==>
        forall u :: u in surveys <==>
          u in Urls(hipses) || (u in old(surveys) && old(surveys)[u].rootUrl in Urls(hipses))
      ensures res.Ok? ==>
        forall u | u in surveys ::
          if u in old(surveys) && old(surveys)[u].rootUrl in Urls(hipses) then
            surveys[u] == old(surveys)[u]
          else
            FirstIndex(hipses, u) < |hipses| && hipses[FirstIndex(hipses, u)].config.Some?
            && surveys[u] == NewSurvey(hipses[FirstIndex(hipses, u)].config.value)
    {
      var dup := FindDuplicate(LayerNames(hipses));
      if dup.Some? {
        var j :| 0 <= j < dup.value && LayerNames(hipses)[j] == LayerNames(hipses)[dup.value];
        return Err(DuplicateLayer(hipses[dup.value].layer));
      }
      var needed := Urls(hipses);
      ghost var before := surveys;
      surveys := map u | u in surveys && surveys[u].rootUrl in needed :: surveys[u];
      ghost var kept := surveys;
      meta := map[];
      layers := [];
      urls := map[];
      res := FillLayers(hipses);
      if res.Ok? {
        UrlsOfInUrls(hipses);
        KeptOrNew(hipses, before, kept, surveys);
      }
    }

    /** The loop of `set_image_surveys` over the HiPSes, once the surveys no longer needed
        are dropped and the layers cleared. */
    method FillLayers(hipses: seq<SimpleHips>) returns (res: Result<bool, SurveysError>)
      requires meta == map[] && urls == map[] && layers == []
      modifies this`surveys, this`meta, this`urls, this`layers, this`mostPreciseSurvey
      ensures res.Err? <==> exists k | 0 <= k < |hipses| :: hipses[k].config.None?
      ensures res.Err? ==>
        res.error.ConfigFailed?
        && exists k | 0 <= k < |hipses| ::
          hipses[k].config.None? && res.error.layer == hipses[k].layer
          && forall k' | 0 <= k' < k :: hipses[k'].config.Some?
      ensures res.Ok? ==>
        layers == LayerNames(hipses) && meta == MetaOf(hipses) && urls == UrlsOf(hipses)
        && mostPreciseSurvey == MostPrecise(hipses, 0, old(mostPreciseSurvey))
        && res.value == AnyReversed(hipses)
      ensures res.Ok? ==>
        surveys.Keys == old(surveys).Keys + Urls(hipses)
        && forall u | u in old(surveys) :: surveys[u] == old(surveys)[u]
      ensures res.Ok? ==>
        forall u | u in surveys && u !in old(surveys) ::
          FirstIndex(hipses, u) < |hipses| && hipses[FirstIndex(hipses, u)].config.Some?
          && surveys[u] == NewSurvey(hipses[FirstIndex(hipses, u)].config.value)
    {
      var before := surveys;
      var ss, ms, us, ls, best := surveys, meta, urls, layers, mostPreciseSurvey;
      var maxDepth := 0;
      var longitudeReversed := false;
      for k := 0 to |hipses|
        invariant Filled(hipses, k, before, old(mostPreciseSurvey),
                         ss, ms, us, ls, best, maxDepth, longitudeReversed)
      {
        var h := hipses[k];
        if h.config.None? {
          surveys, meta, urls, layers, mostPreciseSurvey := ss, ms, us, ls, best;
          return Err(ConfigFailed(h.layer));
        }
        FillStep(hipses, k, before, old(mostPreciseSurvey), ss, ms, us, ls, best, maxDepth,
                 longitudeReversed);
        if h.maxOrder > maxDepth {
          maxDepth := h.maxOrder;
          best := h.url;
        }
        if h.url !in ss {
          ss := ss[h.url := NewSurvey(h.config.value)];
        }
        longitudeReversed := longitudeReversed || h.meta.longitudeReversed;
        ms := ms[h.layer := h.meta];
        us := us[h.layer := h.url];
        ls := ls + [h.layer];
      }
      FillDone(hipses, before, old(mostPreciseSurvey), ss, ms, us, ls, best, maxDepth,
               longitudeReversed);
      surveys, meta, urls, layers, mostPreciseSurvey := ss, ms, us, ls, best;
      return Ok(longitudeReversed);
    }
  }
}
