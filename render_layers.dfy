// The layer stack of the renderer (Layers in src/core/src/renderable/mod.rs): the ordered
// layer names, each with its metadata and the id (HiPS creator DID or FITS url) of the resource
// it shows; resources are shared between layers and dropped with their last layer.

module RenderLayers {
  import opened Wrappers

  /** The parts of a layer's ImageMetadata the stack reads: visibility, whether its opacity is
      1.0, and whether it asks for a reversed longitude axis. */
  datatype Meta = Meta(visible: bool, fullOpacity: bool, longitudeReversed: bool)

  /** A HiPS resource: its root url, and whether it covers the whole sky (it is an allsky, or
      its tiles are RGB8U with no transparency). */
  datatype Hips = Hips(rootUrl: string, allsky: bool, rgb8u: bool)

  /** One image extension of a FITS resource. */
  datatype Image = Image(extension: nat)

  datatype LayerError =
    | LayerNotFound(layer: string)
    | NoResource(id: string)
    | SurveyNotFound
    | HipsNotCreated
    | NoPreviousMeta(layer: string)
    | LayerNotInStack(layer: string)
    | IndexOutOfBounds

  /** The fields of Layers the operations change; `longitudeReversed` stands for the flag the
      operations set on the camera. */
  datatype Stack = Stack(surveys: map<string, Hips>, images: map<string, seq<Image>>,
                         meta: map<string, Meta>, ids: map<string, string>,
                         layers: seq<string>, longitudeReversed: bool)

  /** The stack after an operation, and what the operation returned. On an error the source
      returns at once, leaving whatever it had already changed. */
  datatype Outcome<T> = Outcome(st: Stack, res: Result<T, LayerError>)

  /** The stack `new` builds. */
  function Empty(): Stack
  {
    Stack(map[], map[], map[], map[], [], false)
  }

  predicate Distinct(s: seq<string>)
  {
    forall i, j | 0 <= i < j < |s| :: s[i] != s[j]
  }

  /** The invariant the operations keep: each layer appears once and has metadata and an id,
      nothing else has either, and each id names a HiPS or a FITS resource. */
  predicate Wf(st: Stack)
  {
    Distinct(st.layers) && Keyed(st.layers, st.meta, st.ids)
    && Resolved(st.ids, st.surveys, st.images)
  }

  /** Every layer of the stack has metadata and an identifier, and nothing else has. */
  predicate Keyed(layers: seq<string>, meta: map<string, Meta>, ids: map<string, string>)
  {
    (forall l | l in layers :: l in meta)
    && (forall l | l in meta :: l in layers)
    && ids.Keys == meta.Keys
  }

  /** Every identifier names a loaded HiPS or FITS image. */
  predicate Resolved(ids: map<string, string>, surveys: map<string, Hips>, images: map<string, seq<Image>>)
  {
    forall l | l in ids :: ids[l] in surveys || ids[l] in images
  }

  /** `iter().position`: the first index holding l. */
  function Position(s: seq<string>, l: string): (r: Option<nat>)
    ensures r.None? <==> l !in s
    ensures r.Some? ==> r.value < |s| && s[r.value] == l
                        && forall j | 0 <= j < r.value :: s[j] != l
  {
    if |s| == 0 then None
    else if s[0] == l then Some(0)
    else match Position(s[1..], l)
         case None => None
         case Some(k) => Some(k + 1)
  }

  /** `Vec::remove`. */
  function RemoveAt(s: seq<string>, i: nat): seq<string>
    requires i < |s|
  {
    s[..i] + s[i + 1..]
  }

  /** `Vec::insert`. */
  function InsertAt(s: seq<string>, i: nat, x: string): seq<string>
    requires i <= |s|
  {
    s[..i] + [x] + s[i..]
  }

  /** `Vec::swap`. */
  function Swap(s: seq<string>, i: nat, j: nat): seq<string>
    requires i < |s| && j < |s|
  {
    s[i := s[j]][j := s[i]]
  }

  /** Some layer's metadata asks for a reversed longitude axis. */
  predicate AnyReversed(meta: map<string, Meta>)
  {
    exists l | l in meta :: meta[l].longitudeReversed
  }

  /** `remove_layer`: the metadata, the id and the position of the layer go, in that order,
      an error leaving what was already removed; the camera follows the remaining metadata;
      the resource goes too unless another layer still uses its id. Returns the position the
      layer had. */
  function LayerRemoved(st: Stack, layer: string): Outcome<nat>
  {
    if layer !in st.meta then Outcome(st, Err(LayerNotFound(layer)))
    else
      var meta := st.meta - {layer};
      if layer !in st.ids then Outcome(st.(meta := meta), Err(LayerNotFound(layer)))
      else
        var id := st.ids[layer];
        var ids := st.ids - {layer};
        match Position(st.layers, layer)
        case None => Outcome(st.(meta := meta, ids := ids), Err(LayerNotFound(layer)))
        case Some(i) =>
          var st1 := st.(meta := meta, ids := ids, layers := RemoveAt(st.layers, i),
                         longitudeReversed := AnyReversed(meta));
          if id in ids.Values then Outcome(st1, Ok(i))
          else if id in st.surveys then Outcome(st1.(surveys := st.surveys - {id}), Ok(i))
          else if id in st.images then Outcome(st1.(images := st.images - {id}), Ok(i))
          else Outcome(st1, Err(NoResource(id)))
  }

  /** `rename_layer`: the name is replaced in place, then the metadata and the id move to the
      new name. */
  function LayerRenamed(st: Stack, layer: string, newLayer: string): Outcome<()>
  {
    match Position(st.layers, layer)
    case None => Outcome(st, Err(LayerNotFound(layer)))
    case Some(i) =>
      var layers := st.layers[i := newLayer];
      if layer !in st.meta then Outcome(st.(layers := layers), Err(LayerNotFound(layer)))
      else
        var meta := st.meta - {layer};
        if layer !in st.ids then Outcome(st.(layers := layers, meta := meta), Err(LayerNotFound(layer)))
        else
          Outcome(st.(layers := layers, meta := meta[newLayer := st.meta[layer]],
                      ids := (st.ids - {layer})[newLayer := st.ids[layer]]), Ok(()))
  }

  /** `swap_layers`: the two layers exchange their positions. */
  function LayersSwapped(st: Stack, first: string, second: string): Outcome<()>
  {
    match Position(st.layers, first)
    case None => Outcome(st, Err(LayerNotFound(first)))
    case Some(i) =>
      match Position(st.layers, second)
      case None => Outcome(st, Err(LayerNotFound(second)))
      case Some(j) => Outcome(st.(layers := Swap(st.layers, i, j)), Ok(()))
  }

  /** `add_image_hips` of layer `layer` showing the HiPS of creator DID `cdid`: a layer of that
      name is first removed and the new one takes its position, else it goes on top; the
      camera follows the metadata; the HiPS is created only if no HiPS of that DID is loaded
      (`created` is the outcome of building it, None where the source's configuration or
      GPU set-up fails). Returns the HiPS the layer shows. */
  function HipsAdded(st: Stack, layer: string, meta: Meta, cdid: string, created: Option<Hips>)
    : Outcome<Hips>
  {
    var removed := if layer in st.layers then LayerRemoved(st, layer)
                   else Outcome(st, Ok(|st.layers|));
    match removed.res
    case Err(e) => Outcome(removed.st, Err(e))
    case Ok(idx) => InsertHips(removed.st, idx, layer, meta, cdid, created)
  }

  /** The rest of `add_image_hips` once the position of the layer is known: the layer is
      inserted there with its metadata, the HiPS created if none of that DID is loaded, and
      the layer pointed at it. */
  function InsertHips(st: Stack, idx: nat, layer: string, meta: Meta, cdid: string,
                      created: Option<Hips>): Outcome<Hips>
  {
    if idx > |st.layers| then Outcome(st, Err(IndexOutOfBounds))
    else
      var metas := st.meta[layer := meta];
      var st1 := st.(layers := InsertAt(st.layers, idx, layer), meta := metas,
                     longitudeReversed := AnyReversed(metas));
      if cdid !in st1.surveys && created.None? then Outcome(st1, Err(HipsNotCreated))
      else
        var surveys := if cdid in st1.surveys then st1.surveys else st1.surveys[cdid := created.value];
        Outcome(st1.(surveys := surveys, ids := st1.ids[layer := cdid]), Ok(surveys[cdid]))
  }

  /** `set_layer_cfg`: the new metadata is stored, with an error when the layer had none
      before; hiding a layer looks up its position first, and fails when it has none. */
  function CfgSet(st: Stack, layer: string, meta: Meta): Outcome<()>
  {
    if layer in st.meta && st.meta[layer].visible && !meta.visible && layer !in st.layers then
      Outcome(st, Err(LayerNotInStack(layer)))
    else
      var st1 := st.(meta := st.meta[layer := meta]);
      if layer in st.meta then Outcome(st1, Ok(())) else Outcome(st1, Err(NoPreviousMeta(layer)))
  }

  /** `set_survey_url`: the root url of the HiPS of creator DID `cdid` is replaced. */
  function UrlSet(st: Stack, cdid: string, url: string): Outcome<()>
  {
    if cdid in st.surveys then
      Outcome(st.(surveys := st.surveys[cdid := st.surveys[cdid].(rootUrl := url)]), Ok(()))
    else Outcome(st, Err(SurveyNotFound))
  }

  /** A layer whose HiPS covers the sky at full opacity hides every layer below it. */
  predicate Covering(st: Stack, l: string)
    requires l in st.meta && l in st.ids
  {
    var id := st.ids[l];
    id in st.surveys && (st.surveys[id].allsky || st.surveys[id].rgb8u) && st.meta[l].fullOpacity
  }

  /** Every layer of the stack has metadata and an id (the `expect`s of `draw`). */
  predicate Drawable(st: Stack)
  {
    forall l | l in st.layers :: l in st.meta && l in st.ids
  }

  /** The index `draw` starts from, looking at positions 1 .. n - 1: the last covering one, or
      0 when none is. */
  function StartIndex(st: Stack, n: nat): (r: nat)
    requires Drawable(st) && n <= |st.layers|
    ensures r < n || r == 0
    ensures r >= 1 ==> Covering(st, st.layers[r])
    ensures forall i | r < i < n && i >= 1 :: !Covering(st, st.layers[i])
  {
    if n <= 1 then 0
    else if Covering(st, st.layers[n - 1]) then n - 1
    else StartIndex(st, n - 1)
  }

  /** `draw` paints the background colour when no layer at all is covering. */
  predicate RendersBackground(st: Stack)
    requires Drawable(st)
  {
    forall i | 0 <= i < |st.layers| :: !Covering(st, st.layers[i])
  }

  // ---------------------------------------------------------------------------------------
  // Properties of the operations.

  lemma EmptyWf()
    ensures Wf(Empty())
  {
  }

  lemma DistinctRemoveAt(s: seq<string>, i: nat)
    requires Distinct(s) && i < |s|
    ensures Distinct(RemoveAt(s, i))
    ensures forall x :: x in RemoveAt(s, i) <==> x in s && x != s[i]
  {
    var r := RemoveAt(s, i);
    forall x ensures x in r <==> x in s && x != s[i] {
      if x in r {
        var k :| 0 <= k < |r| && r[k] == x;
        if k < i { assert s[k] == x; } else { assert s[k + 1] == x; }
      }
      if x in s && x != s[i] {
        var k :| 0 <= k < |s| && s[k] == x;
        if k < i { assert r[k] == x; } else { assert r[k - 1] == x; }
      }
    }
  }

  lemma DistinctInsertAt(s: seq<string>, i: nat, x: string)
    requires Distinct(s) && i <= |s| && x !in s
    ensures Distinct(InsertAt(s, i, x))
    ensures forall y :: y in InsertAt(s, i, x) <==> y in s || y == x
  {
    var r := InsertAt(s, i, x);
    assert forall k | 0 <= k < |r| :: r[k] == if k < i then s[k] else if k == i then x else s[k - 1];
    forall y ensures y in r <==> y in s || y == x {
      if y in s {
        var k :| 0 <= k < |s| && s[k] == y;
        if k < i { assert r[k] == y; } else { assert r[k + 1] == y; }
      }
      if y == x { assert r[i] == x; }
    }
  }

  /** `remove_layer` on a well-formed stack fails exactly when the layer is absent, and then
      changes nothing; otherwise it returns the layer's position, takes the layer out of the
      order, the metadata and the ids, keeps the rest of the order, and drops the resource
      (the HiPS if there is one of that id, else the FITS image) exactly when no remaining
      layer uses its id. */
  lemma RemoveLayerSpec(st: Stack, layer: string)
    requires Wf(st)
    ensures LayerRemoved(st, layer).res.Err? <==> layer !in st.layers
    ensures LayerRemoved(st, layer).res.Err? ==> LayerRemoved(st, layer).st == st
    ensures
      var o := LayerRemoved(st, layer);
      o.res.Ok? ==>
        var i := o.res.value;
        var id := st.ids[layer];
        var st' := o.st;
        i < |st.layers| && st.layers[i] == layer && st'.layers == RemoveAt(st.layers, i)
        && st'.meta == st.meta - {layer} && st'.ids == st.ids - {layer}
        && st'.longitudeReversed == AnyReversed(st'.meta)
        && Wf(st')
        && (id in st'.ids.Values ==> st'.surveys == st.surveys && st'.images == st.images)
        && (id !in st'.ids.Values && id in st.surveys ==>
              st'.surveys == st.surveys - {id} && st'.images == st.images)
        && (id !in st'.ids.Values && id !in st.surveys ==>
              st'.surveys == st.surveys && st'.images == st.images - {id})
  {
    if layer in st.layers {
      RemovePresent(st, layer);
      var i := Position(st.layers, layer).value;
      RemovedWf(st, layer, i);
    }
  }

  /** The stack `remove_layer` leaves when the layer is present, spelled out. */
  lemma RemovePresent(st: Stack, layer: string)
    requires Wf(st) && layer in st.layers
    ensures
      var i := Position(st.layers, layer).value;
      var id := st.ids[layer];
      var meta := st.meta - {layer};
      var ids := st.ids - {layer};
      var st1 := st.(meta := meta, ids := ids, layers := RemoveAt(st.layers, i),
                     longitudeReversed := AnyReversed(meta));
      LayerRemoved(st, layer)
      == if id in ids.Values then Outcome(st1, Ok(i))
         else if id in st.surveys then Outcome(st1.(surveys := st.surveys - {id}), Ok(i))
         else Outcome(st1.(images := st.images - {id}), Ok(i))
  {
  }

  /** Taking layer i out of the order, the metadata and the ids, and dropping its resource
      when no other layer uses it, keeps the stack well formed. */
  lemma RemovedWf(st: Stack, layer: string, i: nat)
    requires Wf(st) && i < |st.layers| && st.layers[i] == layer
    ensures
      var id := st.ids[layer];
      var meta := st.meta - {layer};
      var ids := st.ids - {layer};
      var st1 := st.(meta := meta, ids := ids, layers := RemoveAt(st.layers, i),
                     longitudeReversed := AnyReversed(meta));
      Wf(st1)
      && (id !in ids.Values ==> Wf(st1.(surveys := st.surveys - {id}))
                                && Wf(st1.(images := st.images - {id})))
  {
    DistinctRemoveAt(st.layers, i);
  }

  /** `rename_layer` on a well-formed stack fails exactly when the layer is absent, and then
      changes nothing; otherwise the new name takes the old one's position and inherits its
      metadata and id, the old name keeping neither; the stack stays well formed when the new
      name is not already another layer's. */
  lemma RenameLayerSpec(st: Stack, layer: string, newLayer: string)
    requires Wf(st)
    ensures LayerRenamed(st, layer, newLayer).res.Err? <==> layer !in st.layers
    ensures LayerRenamed(st, layer, newLayer).res.Err? ==> LayerRenamed(st, layer, newLayer).st == st
    ensures
      var o := LayerRenamed(st, layer, newLayer);
      o.res.Ok? ==>
        var i := Position(st.layers, layer).value;
        var st' := o.st;
        st'.layers == st.layers[i := newLayer]
        && newLayer in st'.meta && st'.meta[newLayer] == st.meta[layer]
        && newLayer in st'.ids && st'.ids[newLayer] == st.ids[layer]
        && (layer != newLayer ==> layer !in st'.meta && layer !in st'.ids)
        && st'.surveys == st.surveys && st'.images == st.images
        && (newLayer == layer || newLayer !in st.layers ==>
              Wf(st') && Position(st'.layers, newLayer) == Some(i))
  {
    if layer in st.layers {
      var i := Position(st.layers, layer).value;
      RenamePresent(st, layer, newLayer);
      if newLayer == layer || newLayer !in st.layers {
        RenamedOrder(st.layers, i, newLayer);
        RenamedWf(st, i, newLayer);
      }
    }
  }

  /** The stack `rename_layer` leaves when the layer is present, spelled out. */
  lemma RenamePresent(st: Stack, layer: string, newLayer: string)
    requires Wf(st) && layer in st.layers
    ensures
      var i := Position(st.layers, layer).value;
      LayerRenamed(st, layer, newLayer)
      == Outcome(st.(layers := st.layers[i := newLayer],
                     meta := (st.meta - {layer})[newLayer := st.meta[layer]],
                     ids := (st.ids - {layer})[newLayer := st.ids[layer]]), Ok(()))
  {
  }

  /** Replacing the name at position i by a name not elsewhere in the order. */
  lemma RenamedOrder(s: seq<string>, i: nat, x: string)
    requires Distinct(s) && i < |s| && (x == s[i] || x !in s)
    ensures Distinct(s[i := x])
    ensures forall l :: l in s[i := x] <==> l == x || (l in s && l != s[i])
    ensures Position(s[i := x], x) == Some(i)
  {
    var s' := s[i := x];
    forall l ensures l in s' <==> l == x || (l in s && l != s[i]) {
      if l in s' {
        var k :| 0 <= k < |s'| && s'[k] == l;
      }
      if l in s && l != s[i] {
        var k :| 0 <= k < |s| && s[k] == l;
        assert s'[k] == l;
      }
      if l == x {
        assert s'[i] == x;
      }
    }
    forall j | 0 <= j < i ensures s'[j] != x {
      assert s'[j] == s[j];
    }
    assert s'[i] == x;
  }

  lemma RenamedWf(st: Stack, i: nat, newLayer: string)
    requires Wf(st) && i < |st.layers| && (newLayer == st.layers[i] || newLayer !in st.layers)
    ensures
      var layer := st.layers[i];
      Wf(st.(layers := st.layers[i := newLayer],
             meta := (st.meta - {layer})[newLayer := st.meta[layer]],
             ids := (st.ids - {layer})[newLayer := st.ids[layer]]))
  {
    RenamedOrder(st.layers, i, newLayer);
    RenamedKeyed(st.layers, st.meta, st.ids, i, newLayer);
    RenamedResolved(st.ids, st.surveys, st.images, st.layers[i], newLayer);
  }

  lemma RenamedKeyed(layers: seq<string>, meta: map<string, Meta>, ids: map<string, string>,
                     i: nat, newLayer: string)
    requires Distinct(layers) && Keyed(layers, meta, ids)
    requires i < |layers| && (newLayer == layers[i] || newLayer !in layers)
    ensures
      var layer := layers[i];
      Keyed(layers[i := newLayer], (meta - {layer})[newLayer := meta[layer]],
            (ids - {layer})[newLayer := ids[layer]])
  {
    var layer := layers[i];
    var l' := layers[i := newLayer];
    var meta' := (meta - {layer})[newLayer := meta[layer]];
    RenamedOrder(layers, i, newLayer);
    forall l | l in l' ensures l in meta' {
      if l != newLayer {
        assert l in layers && l != layer;
      }
    }
    forall l | l in meta' ensures l in l' {
      if l != newLayer {
        assert l in meta && l in layers && l != layer;
      }
    }
  }

  lemma RenamedResolved(ids: map<string, string>, surveys: map<string, Hips>,
                        images: map<string, seq<Image>>, layer: string, newLayer: string)
    requires Resolved(ids, surveys, images) && layer in ids
    ensures Resolved((ids - {layer})[newLayer := ids[layer]], surveys, images)
  {
    var ids' := (ids - {layer})[newLayer := ids[layer]];
    forall l | l in ids' ensures ids'[l] in surveys || ids'[l] in images {
      if l != newLayer {
        assert ids'[l] == ids[l];
      }
    }
  }

  /** Renaming a layer to the name of another layer leaves that name twice in the order. */
  lemma RenameOntoOther(st: Stack, layer: string, newLayer: string)
    requires Wf(st) && layer in st.layers && newLayer in st.layers && newLayer != layer
    ensures LayerRenamed(st, layer, newLayer).res.Ok?
    ensures !Distinct(LayerRenamed(st, layer, newLayer).st.layers)
  {
    var i := Position(st.layers, layer).value;
    var j := Position(st.layers, newLayer).value;
    var l' := LayerRenamed(st, layer, newLayer).st.layers;
    assert l'[i] == newLayer && l'[j] == newLayer && i != j;
  }

  /** `swap_layers` on a well-formed stack fails exactly when either layer is absent, and then
      changes nothing; otherwise the two layers exchange their positions and every other
      position is kept. */
  lemma SwapLayersSpec(st: Stack, first: string, second: string)
    requires Wf(st)
    ensures LayersSwapped(st, first, second).res.Err? <==> first !in st.layers || second !in st.layers
    ensures LayersSwapped(st, first, second).res.Err? ==> LayersSwapped(st, first, second).st == st
    ensures
      var o := LayersSwapped(st, first, second);
      o.res.Ok? ==>
        var i := Position(st.layers, first).value;
        var j := Position(st.layers, second).value;
        var l' := o.st.layers;
        |l'| == |st.layers| && l'[i] == second && l'[j] == first
        && (forall k | 0 <= k < |l'| && k != i && k != j :: l'[k] == st.layers[k])
        && o.st == st.(layers := l') && Wf(o.st)
  {
    if first in st.layers && second in st.layers {
      var i := Position(st.layers, first).value;
      var j := Position(st.layers, second).value;
      SwappedWf(st, i, j);
    }
  }

  /** Exchanging two positions keeps the names, each once. */
  lemma SwappedOrder(s: seq<string>, i: nat, j: nat)
    requires Distinct(s) && i < |s| && j < |s|
    ensures Distinct(Swap(s, i, j))
    ensures forall l :: l in Swap(s, i, j) <==> l in s
  {
    var s' := Swap(s, i, j);
    forall l ensures l in s' <==> l in s {
      if l in s' {
        var k :| 0 <= k < |s'| && s'[k] == l;
        if k == i { assert s[j] == l; } else if k == j { assert s[i] == l; } else { assert s[k] == l; }
      }
      if l in s {
        var k :| 0 <= k < |s| && s[k] == l;
        if k == i { assert s'[j] == l; } else if k == j { assert s'[i] == l; } else { assert s'[k] == l; }
      }
    }
  }

  lemma SwappedWf(st: Stack, i: nat, j: nat)
    requires Wf(st) && i < |st.layers| && j < |st.layers|
    ensures Wf(st.(layers := Swap(st.layers, i, j)))
  {
    SwappedOrder(st.layers, i, j);
  }

  /** A layer's HiPS outlives the layer's re-addition: it is loaded and either the layer is
      new, or it showed another resource, or another layer shows this HiPS too. */
  predicate HipsKept(st: Stack, layer: string, cdid: string)
    requires Wf(st)
  {
    cdid in st.surveys
    && (layer !in st.layers || st.ids[layer] != cdid
        || exists l | l in st.ids && l != layer :: st.ids[l] == cdid)
  }

  /** `add_image_hips` on a well-formed stack fails only when the HiPS must be created and
      cannot be; otherwise the stack stays well formed, the layer shows the HiPS with the new
      metadata, a layer already present keeps its position (the order is unchanged) and a new
      one goes on top, and a loaded HiPS is reused rather than created again. */
  lemma AddImageHipsSpec(st: Stack, layer: string, meta: Meta, cdid: string, created: Option<Hips>)
    requires Wf(st)
    ensures HipsAdded(st, layer, meta, cdid, created).res.Err?
            <==> !HipsKept(st, layer, cdid) && created.None?
    ensures
      var o := HipsAdded(st, layer, meta, cdid, created);
      o.res.Ok? ==>
        Wf(o.st) && o.st.ids[layer] == cdid && o.st.meta[layer] == meta
        && o.st.longitudeReversed == AnyReversed(o.st.meta)
        && cdid in o.st.surveys && o.res.value == o.st.surveys[cdid]
        && (layer in st.layers ==> o.st.layers == st.layers)
        && (layer !in st.layers ==> o.st.layers == st.layers + [layer])
        && (HipsKept(st, layer, cdid) ==> o.res.value == st.surveys[cdid])
        && (!HipsKept(st, layer, cdid) ==> o.res.value == created.value)
  {
    if layer in st.layers {
      AddExisting(st, layer, meta, cdid, created);
    } else {
      AddNew(st, layer, meta, cdid, created);
    }
  }

  lemma AddNew(st: Stack, layer: string, meta: Meta, cdid: string, created: Option<Hips>)
    requires Wf(st) && layer !in st.layers
    ensures HipsAdded(st, layer, meta, cdid, created).res.Err?
            <==> !HipsKept(st, layer, cdid) && created.None?
    ensures
      var o := HipsAdded(st, layer, meta, cdid, created);
      o.res.Ok? ==>
        Wf(o.st) && o.st.ids[layer] == cdid && o.st.meta[layer] == meta
        && o.st.longitudeReversed == AnyReversed(o.st.meta)
        && cdid in o.st.surveys && o.res.value == o.st.surveys[cdid]
        && o.st.layers == st.layers + [layer]
        && (HipsKept(st, layer, cdid) ==> o.res.value == st.surveys[cdid])
        && (!HipsKept(st, layer, cdid) ==> o.res.value == created.value)
  {
    InsertHipsSpec(st, |st.layers|, layer, meta, cdid, created);
    assert InsertAt(st.layers, |st.layers|, layer) == st.layers + [layer];
  }

  lemma AddExisting(st: Stack, layer: string, meta: Meta, cdid: string, created: Option<Hips>)
    requires Wf(st) && layer in st.layers
    ensures HipsAdded(st, layer, meta, cdid, created).res.Err?
            <==> !HipsKept(st, layer, cdid) && created.None?
    ensures
      var o := HipsAdded(st, layer, meta, cdid, created);
      o.res.Ok? ==>
        Wf(o.st) && o.st.ids[layer] == cdid && o.st.meta[layer] == meta
        && o.st.longitudeReversed == AnyReversed(o.st.meta)
        && cdid in o.st.surveys && o.res.value == o.st.surveys[cdid]
        && o.st.layers == st.layers
        && (HipsKept(st, layer, cdid) ==> o.res.value == st.surveys[cdid])
        && (!HipsKept(st, layer, cdid) ==> o.res.value == created.value)
  {
    RemovedForReAdd(st, layer);
    var r := LayerRemoved(st, layer);
    var i := r.res.value;
    assert HipsAdded(st, layer, meta, cdid, created) == InsertHips(r.st, i, layer, meta, cdid, created);
    InsertHipsSpec(r.st, i, layer, meta, cdid, created);
    InsertRemoveAt(st.layers, i);
    RemovedKeeps(st, layer, cdid);
  }

  lemma InsertRemoveAt(s: seq<string>, i: nat)
    requires i < |s|
    ensures InsertAt(RemoveAt(s, i), i, s[i]) == s
  {
    assert InsertAt(RemoveAt(s, i), i, s[i]) == s[..i] + [s[i]] + s[i + 1..];
  }

  /** What re-adding needs of the removal of a present layer. */
  lemma RemovedForReAdd(st: Stack, layer: string)
    requires Wf(st) && layer in st.layers
    ensures LayerRemoved(st, layer).res.Ok?
    ensures
      var r := LayerRemoved(st, layer);
      var i := r.res.value;
      i < |st.layers| && r.st.layers == RemoveAt(st.layers, i) && Wf(r.st)
      && layer !in r.st.layers
  {
    RemoveLayerSpec(st, layer);
    var i := LayerRemoved(st, layer).res.value;
    DistinctRemoveAt(st.layers, i);
  }

  /** Removing a layer before re-adding it keeps a HiPS exactly as `HipsKept` says. */
  lemma RemovedKeeps(st: Stack, layer: string, cdid: string)
    requires Wf(st) && layer in st.layers
    ensures LayerRemoved(st, layer).res.Ok?
    ensures var st1 := LayerRemoved(st, layer).st;
      (cdid in st1.surveys <==> HipsKept(st, layer, cdid))
      && (HipsKept(st, layer, cdid) ==> st1.surveys[cdid] == st.surveys[cdid])
  {
    RemoveLayerSpec(st, layer);
    var st1 := LayerRemoved(st, layer).st;
    var id := st.ids[layer];
    if cdid in st.surveys && id == cdid && id in st1.ids.Values {
      var l :| l in st1.ids && st1.ids[l] == cdid;
      assert l in st.ids && l != layer;
    }
    if cdid in st.surveys && exists l | l in st.ids && l != layer :: st.ids[l] == cdid {
      var l :| l in st.ids && l != layer && st.ids[l] == cdid;
      assert st1.ids[l] == cdid;
    }
  }

  /** Inserting a layer absent from a well-formed stack keeps it well formed; the insertion
      fails only when the HiPS must be created and cannot be. */
  lemma InsertHipsSpec(st: Stack, idx: nat, layer: string, meta: Meta, cdid: string,
                       created: Option<Hips>)
    requires Wf(st) && layer !in st.layers && idx <= |st.layers|
    ensures InsertHips(st, idx, layer, meta, cdid, created).res.Err?
            <==> cdid !in st.surveys && created.None?
    ensures
      var o := InsertHips(st, idx, layer, meta, cdid, created);
      o.res.Ok? ==>
        Wf(o.st) && o.st.ids[layer] == cdid && o.st.meta[layer] == meta
        && o.st.longitudeReversed == AnyReversed(o.st.meta)
        && o.st.layers == InsertAt(st.layers, idx, layer)
        && cdid in o.st.surveys && o.res.value == o.st.surveys[cdid]
        && o.res.value == if cdid in st.surveys then st.surveys[cdid] else created.value
  {
    if cdid in st.surveys || created.Some? {
      var surveys := if cdid in st.surveys then st.surveys else st.surveys[cdid := created.value];
      var metas := st.meta[layer := meta];
      InsertedWf(st, idx, layer, meta, cdid, surveys);
      assert InsertHips(st, idx, layer, meta, cdid, created)
          == Outcome(st.(layers := InsertAt(st.layers, idx, layer), meta := metas,
                         longitudeReversed := AnyReversed(metas), surveys := surveys,
                         ids := st.ids[layer := cdid]), Ok(surveys[cdid]));
    }
  }

  lemma InsertedWf(st: Stack, idx: nat, layer: string, meta: Meta, cdid: string,
                   surveys: map<string, Hips>)
    requires Wf(st) && layer !in st.layers && idx <= |st.layers|
    requires cdid in surveys && st.surveys.Keys <= surveys.Keys
    ensures Wf(st.(layers := InsertAt(st.layers, idx, layer), meta := st.meta[layer := meta],
                   longitudeReversed := AnyReversed(st.meta[layer := meta]), surveys := surveys,
                   ids := st.ids[layer := cdid]))
  {
    DistinctInsertAt(st.layers, idx, layer);
  }

  /** `set_layer_cfg` on a well-formed stack always stores the new metadata, and succeeds,
      keeping the stack well formed, exactly when the layer is in the stack. */
  lemma SetLayerCfgSpec(st: Stack, layer: string, meta: Meta)
    requires Wf(st)
    ensures CfgSet(st, layer, meta).st == st.(meta := st.meta[layer := meta])
    ensures CfgSet(st, layer, meta).res.Ok? <==> layer in st.layers
    ensures CfgSet(st, layer, meta).res.Ok? ==> Wf(CfgSet(st, layer, meta).st)
  {
  }

  /** `set_survey_url` fails exactly when no HiPS of that DID is loaded; otherwise only that
      HiPS's root url changes. */
  lemma SetSurveyUrlSpec(st: Stack, cdid: string, url: string)
    requires Wf(st)
    ensures UrlSet(st, cdid, url).res.Err? <==> cdid !in st.surveys
    ensures UrlSet(st, cdid, url).res.Err? ==> UrlSet(st, cdid, url).st == st
    ensures
      var st' := UrlSet(st, cdid, url).st;
      cdid in st.surveys ==>
        Wf(st') && st'.surveys.Keys == st.surveys.Keys && st'.surveys[cdid].rootUrl == url
        && (forall d | d in st.surveys && d != cdid :: st'.surveys[d] == st.surveys[d])
  {
  }

  /** When no layer covers the sky, `draw` paints the background and starts from the bottom
      layer. */
  lemma {:induction false} BackgroundStartsAtBottom(st: Stack, n: nat)
    requires Drawable(st) && n <= |st.layers| && RendersBackground(st)
    ensures StartIndex(st, n) == 0
  {
    if n > 1 {
      BackgroundStartsAtBottom(st, n - 1);
    }
  }

  /** The layer stack of the renderer. */
  class Layers {
    var surveys: map<string, Hips>
    var images: map<string, seq<Image>>
    var meta: map<string, Meta>
    var ids: map<string, string>
    var layers: seq<string>
    /** Stands for the longitude-reversed flag the stack sets on the camera. */
    var cameraLongitudeReversed: bool

    ghost function St(): Stack
      reads this
    {
      Stack(surveys, images, meta, ids, layers, cameraLongitudeReversed)
    }

    /** An empty stack. */
    constructor()
      ensures St() == Empty()
    {
      surveys := map[];
      images := map[];
      meta := map[];
      ids := map[];
      layers := [];
      cameraLongitudeReversed := false;
    }

    /** `layers.iter().position(...)`. */
    method FindPosition(layer: string) returns (r: Option<nat>)
      ensures r == Position(layers, layer)
    {
      var i := 0;
      while i < |layers| && layers[i] != layer
        invariant i <= |layers|
        invariant forall j | 0 <= j < i :: layers[j] != layer
      {
        i := i + 1;
      }
      if i < |layers| {
        r := Some(i);
      } else {
        r := None;
      }
    }

    /** `remove_layer`. */
    method RemoveLayer(layer: string) returns (res: Result<nat, LayerError>)
      modifies this`meta, this`ids, this`layers, this`cameraLongitudeReversed
      modifies this`surveys, this`images
      ensures Outcome(St(), res) == LayerRemoved(old(St()), layer)
    {
      if layer !in meta {
        return Err(LayerNotFound(layer));
      }
      meta := meta - {layer};
      if layer !in ids {
        return Err(LayerNotFound(layer));
      }
      var id := ids[layer];
      ids := ids - {layer};
      var pos := FindPosition(layer);
      if pos.None? {
        return Err(LayerNotFound(layer));
      }
      var i := pos.value;
      layers := layers[..i] + layers[i + 1..];
      cameraLongitudeReversed := exists l | l in meta :: meta[l].longitudeReversed;
      if id in ids.Values {
        return Ok(i);
      }
      if id in surveys {
        surveys := surveys - {id};
        return Ok(i);
      }
      if id in images {
        images := images - {id};
        return Ok(i);
      }
      return Err(NoResource(id));
    }

    /** `rename_layer`. */
    method RenameLayer(layer: string, newLayer: string) returns (res: Result<(), LayerError>)
      modifies this`meta, this`ids, this`layers
      ensures Outcome(St(), res) == LayerRenamed(old(St()), layer, newLayer)
    {
      var pos := FindPosition(layer);
      if pos.None? {
        return Err(LayerNotFound(layer));
      }
      layers := layers[pos.value := newLayer];
      if layer !in meta {
        return Err(LayerNotFound(layer));
      }
      var m := meta[layer];
      meta := meta - {layer};
      if layer !in ids {
        return Err(LayerNotFound(layer));
      }
      var id := ids[layer];
      ids := ids - {layer};
      meta := meta[newLayer := m];
      ids := ids[newLayer := id];
      return Ok(());
    }

    /** `swap_layers`. */
    method SwapLayers(first: string, second: string) returns (res: Result<(), LayerError>)
      modifies this`layers
      ensures Outcome(St(), res) == LayersSwapped(old(St()), first, second)
    {
      var i := FindPosition(first);
      if i.None? {
        return Err(LayerNotFound(first));
      }
      var j := FindPosition(second);
      if j.None? {
        return Err(LayerNotFound(second));
      }
      var a, b := layers[i.value], layers[j.value];
      layers := layers[i.value := b][j.value := a];
      return Ok(());
    }

    /** `add_image_hips`; `created` is the HiPS built from the layer's properties, or None
        where building it fails. */
    method AddImageHips(layer: string, m: Meta, cdid: string, created: Option<Hips>)
      returns (res: Result<Hips, LayerError>)
      modifies this`meta, this`ids, this`layers, this`cameraLongitudeReversed
      modifies this`surveys, this`images
      ensures Outcome(St(), res) == HipsAdded(old(St()), layer, m, cdid, created)
    {
      var idx;
      if layer in layers {
        var removed := RemoveLayer(layer);
        if removed.Err? {
          return Err(removed.error);
        }
        idx := removed.value;
      } else {
        idx := |layers|;
      }
      res := InsertLayer(idx, layer, m, cdid, created);
    }

    /** The rest of `add_image_hips` once the position of the layer is known. */
    method InsertLayer(idx: nat, layer: string, m: Meta, cdid: string, created: Option<Hips>)
      returns (res: Result<Hips, LayerError>)
      modifies this`meta, this`ids, this`layers, this`cameraLongitudeReversed, this`surveys
      ensures Outcome(St(), res) == InsertHips(old(St()), idx, layer, m, cdid, created)
    {
      if idx > |layers| {
        return Err(IndexOutOfBounds);
      }
      layers := layers[..idx] + [layer] + layers[idx..];
      meta := meta[layer := m];
      cameraLongitudeReversed := exists l | l in meta :: meta[l].longitudeReversed;
      if cdid !in surveys {
        if created.None? {
          return Err(HipsNotCreated);
        }
        surveys := surveys[cdid := created.value];
      }
      ids := ids[layer := cdid];
      return Ok(surveys[cdid]);
    }

    /** `set_layer_cfg`. */
    method SetLayerCfg(layer: string, m: Meta) returns (res: Result<(), LayerError>)
      modifies this`meta
      ensures Outcome(St(), res) == CfgSet(old(St()), layer, m)
    {
      var had := layer in meta;
      if had && meta[layer].visible && !m.visible {
        var pos := FindPosition(layer);
        if pos.None? {
          return Err(LayerNotInStack(layer));
        }
      }
      meta := meta[layer := m];
      if !had {
        return Err(NoPreviousMeta(layer));
      }
      return Ok(());
    }

    /** `set_survey_url`. */
    method SetSurveyUrl(cdid: string, url: string) returns (res: Result<(), LayerError>)
      modifies this`surveys
      ensures Outcome(St(), res) == UrlSet(old(St()), cdid, url)
    {
      if cdid !in surveys {
        return Err(SurveyNotFound);
      }
      surveys := surveys[cdid := surveys[cdid].(rootUrl := url)];
      return Ok(());
    }

    /** The pre-loop of `draw` over positions 1 .. n - 1 finding the layer to start from. */
    method DrawStartIndex() returns (start: nat)
      requires Drawable(St())
      ensures start == StartIndex(St(), |layers|)
    {
      start := 0;
      var i := 1;
      while i < |layers|
        invariant 1 <= i && (i <= |layers| || |layers| == 0)
        invariant start == StartIndex(St(), if |layers| == 0 then 0 else i)
      {
        var l := layers[i];
        var id := ids[l];
        if id in surveys && (surveys[id].allsky || surveys[id].rgb8u) && meta[l].fullOpacity {
          start := i;
        }
        i := i + 1;
      }
    }
  }
}
