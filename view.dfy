// The view's bookkeeping in src/js/View.js: the field-of-view range and zoom clamping, the
// HEALPix order chosen for the current zoom, and the stack of image layers (names in drawing
// order, the image layer object of each name, the selected layer). The WebGL backend the view
// drives is src/core/src/renderable/mod.rs, modelled in RenderLayers; here its answers are
// parameters.

module AladinView {
  import opened Wrappers
  import opened RenderLayers
  import DistribAladin

  /** The smallest field of view, in degrees, when none is given: a tenth of an arcsecond. */
  const DEFAULT_MIN_FOV: real := 1.0 / 36000.0

  /** The widest field of view, in degrees, at which the order is still forced up. */
  const FORCE_NORDER_FOV: real := 50.0

  function Min(a: real, b: real): real { if a <= b then a else b }
  function Max(a: real, b: real): real { if a >= b then a else b }

  // ---------------------------------------------------------------------------------------
  // Field of view
  // ---------------------------------------------------------------------------------------

  /** `setFoVRange`'s new bounds: two given bounds in the wrong order are swapped; a missing
      or zero minimum becomes `DEFAULT_MIN_FOV`; the maximum is kept as given. */
  function FoVRange(minFoV: Option<real>, maxFoV: Option<real>): (r: (real, Option<real>))
    ensures r.0 != 0.0
  {
    var swap := DistribAladin.Truthy(minFoV) && DistribAladin.Truthy(maxFoV)
                && minFoV.value > maxFoV.value;
    var (mn, mx) := if swap then (maxFoV, minFoV) else (minFoV, maxFoV);
    (if DistribAladin.Truthy(mn) then mn.value else DEFAULT_MIN_FOV, mx)
  }

  /** Two given bounds come out ordered, whichever order they were given in. */
  lemma FoVRangeOrdered(a: real, b: real)
    requires a != 0.0 && b != 0.0
    ensures var r := FoVRange(Some(a), Some(b));
            r.1.Some? && r.0 <= r.1.value && r.0 == Min(a, b) && r.1.value == Max(a, b)
  {
  }

  /** `setZoom`'s clamping: at most the projection's field of view, then at least the
      minimum and at most the maximum, each when set. */
  function ClampFov(fov: real, projectionFov: real, minFoV: real, maxFoV: Option<real>): real
  {
    var f := Min(fov, projectionFov);
    var f := if minFoV != 0.0 then Max(f, minFoV) else f;
    if DistribAladin.Truthy(maxFoV) then Min(f, maxFoV.value) else f
  }

  /** The clamped field of view respects the maximum, and the minimum when the minimum does
      not exceed the maximum; it exceeds the projection's only to reach the minimum; a field
      already within the bounds is kept. */
  lemma ClampFovBounds(fov: real, projectionFov: real, minFoV: real, maxFoV: Option<real>)
    ensures var r := ClampFov(fov, projectionFov, minFoV, maxFoV);
      (DistribAladin.Truthy(maxFoV) ==> r <= maxFoV.value)
      && (minFoV != 0.0 && (DistribAladin.Truthy(maxFoV) ==> minFoV <= maxFoV.value)
          ==> minFoV <= r)
      && (r <= projectionFov || (minFoV != 0.0 && r <= minFoV))
      && ((fov <= projectionFov && (minFoV != 0.0 ==> minFoV <= fov)
           && (DistribAladin.Truthy(maxFoV) ==> fov <= maxFoV.value)) ==> r == fov)
  {
  }

  /** Clamping twice is clamping once. */
  lemma ClampFovIdempotent(fov: real, projectionFov: real, minFoV: real, maxFoV: Option<real>)
    requires minFoV != 0.0 && DistribAladin.Truthy(maxFoV) ==> minFoV <= maxFoV.value
    requires minFoV <= projectionFov
    ensures var r := ClampFov(fov, projectionFov, minFoV, maxFoV);
            ClampFov(r, projectionFov, minFoV, maxFoV) == r
  {
  }

  /** After `setFoVRange` with two bounds, the zoom lies between them, whichever order they
      were given in. */
  lemma FoVWithinRange(fov: real, projectionFov: real, a: real, b: real)
    requires a != 0.0 && b != 0.0
    ensures var (minFoV, maxFoV) := FoVRange(Some(a), Some(b));
            Min(a, b) <= ClampFov(fov, projectionFov, minFoV, maxFoV) <= Max(a, b)
  {
    FoVRangeOrdered(a, b);
    var (minFoV, maxFoV) := FoVRange(Some(a), Some(b));
    ClampFovBounds(fov, projectionFov, minFoV, maxFoV);
  }

  /** `computeNorder`: the order the backend gives, raised to 3 when the field of view is at
      most 50 degrees and the order is 2 or less. */
  function ForcedNorder(fov: real, norder: int): (r: int)
    ensures r >= norder && (fov <= FORCE_NORDER_FOV ==> r >= 3)
    ensures r != norder ==> fov <= FORCE_NORDER_FOV && norder <= 2 && r == 3
  {
    if fov <= FORCE_NORDER_FOV && norder <= 2 then 3 else norder
  }

  // ---------------------------------------------------------------------------------------
  // Image layers
  // ---------------------------------------------------------------------------------------

  /** An image layer object as the view sees it: its survey id, the name of the layer it is
      shown in, and whether it is added to the view. */
  datatype ImageLayer = ImageLayer(id: string, layer: string, added: bool)

  /** The names of the stack are distinct and are exactly the keys of `imageLayers`, each
      image layer stored under its own name; while the stack is not empty, a layer of it is
      selected. */
  predicate LayersConsistent(overlayLayers: seq<string>, imageLayers: map<string, ImageLayer>,
                             selectedLayer: Option<string>)
  {
    Distinct(overlayLayers)
    && (forall l | l in overlayLayers :: l in imageLayers)
    && (forall l | l in imageLayers :: l in overlayLayers && imageLayers[l].layer == l)
    && (overlayLayers != [] ==> selectedLayer.Some? && selectedLayer.value in imageLayers)
  }

  class View {
    var fov: real
    var projectionFov: real
    var minFoV: real
    var maxFoV: Option<real>
    var realNorder: int
    var curNorder: int
    var overlayLayers: seq<string>
    var imageLayers: map<string, ImageLayer>
    var selectedLayer: Option<string>
    var empty: bool

    ghost predicate Valid()
      reads this
    {
      LayersConsistent(overlayLayers, imageLayers, selectedLayer)
    }

    /** A view with no layer, the default minimum and no maximum. */
    constructor(fov: real, projectionFov: real)
      ensures Valid() && overlayLayers == [] && imageLayers == map[] && empty
      ensures this.fov == fov && this.projectionFov == projectionFov
      ensures minFoV == DEFAULT_MIN_FOV && maxFoV == None
      ensures realNorder == 1 && curNorder == 1
    {
      this.fov, this.projectionFov := fov, projectionFov;
      minFoV, maxFoV := DEFAULT_MIN_FOV, None;
      realNorder, curNorder := 1, 1;
      overlayLayers, imageLayers, selectedLayer, empty := [], map[], None, true;
    }

    /** `setFoVRange`, then `setZoom` of the current field of view. `norder` is the order the
        backend reports for the clamped field of view. */
    method SetFoVRange(minFoV: Option<real>, maxFoV: Option<real>, norder: int)
      modifies this
      ensures (this.minFoV, this.maxFoV) == FoVRange(minFoV, maxFoV)
      ensures fov == ClampFov(old(fov), projectionFov, this.minFoV, this.maxFoV)
      ensures realNorder == norder && curNorder == ForcedNorder(fov, norder)
      ensures projectionFov == old(projectionFov) && overlayLayers == old(overlayLayers)
      ensures imageLayers == old(imageLayers) && selectedLayer == old(selectedLayer)
      ensures empty == old(empty)
    {
      var mn, mx := minFoV, maxFoV;
      if DistribAladin.Truthy(mn) && DistribAladin.Truthy(mx) && mn.value > mx.value {
        var tmp := mn;
        mn := mx;
        mx := tmp;
      }
      this.minFoV := if DistribAladin.Truthy(mn) then mn.value else DEFAULT_MIN_FOV;
      this.maxFoV := mx;
      SetZoom(fov, norder);
    }

    /** `setZoom` and the `updateZoomState` it triggers: the backend is given the clamped
        field of view and is taken to keep it; `norder` is the order it then reports. */
    method SetZoom(fov: real, norder: int)
      modifies this`fov, this`realNorder, this`curNorder
      ensures this.fov == ClampFov(fov, projectionFov, minFoV, maxFoV)
      ensures realNorder == norder && curNorder == ForcedNorder(this.fov, norder)
    {
      var f := Min(fov, projectionFov);
      if minFoV != 0.0 {
        f := Max(f, minFoV);
      }
      if DistribAladin.Truthy(maxFoV) {
        f := Min(f, maxFoV.value);
      }
      this.fov := f;
      ComputeNorder(norder);
    }

    /** `computeNorder`, with the order the backend reports. */
    method ComputeNorder(norder: int)
      modifies this`realNorder, this`curNorder
      ensures realNorder == norder && curNorder == ForcedNorder(fov, norder)
    {
      realNorder := norder;
      var n := norder;
      if fov <= FORCE_NORDER_FOV && n <= 2 {
        n := 3;
      }
      curNorder := n;
    }

    /** `selectLayer`: only a layer the view has can be selected. */
    method SelectLayer(layer: string)
      modifies this`selectedLayer
      ensures selectedLayer == if layer in imageLayers then Some(layer) else old(selectedLayer)
    {
      if layer in imageLayers {
        selectedLayer := Some(layer);
      }
    }

    /** `_addLayer`: a new name goes on top of the stack and is selected; an image layer
        already under that name is replaced and returned, marked as no longer added. */
    method AddLayer(imageLayer: ImageLayer) returns (displaced: Option<ImageLayer>)
      requires Valid()
      modifies this`overlayLayers, this`imageLayers, this`selectedLayer
      ensures Valid()
      ensures var name := imageLayer.layer;
        && imageLayers == old(imageLayers)[name := imageLayer.(added := true)]
        && (name in old(overlayLayers) ==>
              overlayLayers == old(overlayLayers) && selectedLayer == old(selectedLayer)
              && displaced == Some(old(imageLayers)[name].(added := false)))
        && (name !in old(overlayLayers) ==>
              overlayLayers == old(overlayLayers) + [name] && selectedLayer == Some(name)
              && displaced == None)
    {
      var layerName := imageLayer.layer;
      var idxOverlayLayer := Position(overlayLayers, layerName);
      displaced := None;
      if idxOverlayLayer.None? {
        AppendDistinct(overlayLayers, layerName);
        overlayLayers := overlayLayers + [layerName];
      } else {
        displaced := Some(imageLayers[layerName].(added := false));
      }
      imageLayers := imageLayers[layerName := imageLayer.(added := true)];
      if idxOverlayLayer.None? {
        SelectLayer(layerName);
      }
    }

    /** `renameLayer` of a layer the view has: the name changes in place in the stack, the
        image layer moves to the new name, and a selected layer stays selected. The backend
        refuses, and nothing changes, when the old name is not in the stack. Renaming onto
        the name of another layer of the stack is not refused: the name is then in the
        stack twice. */
    method RenameLayer(layer: string, newLayer: string) returns (ok: bool)
      requires Valid()
      modifies this`overlayLayers, this`imageLayers, this`selectedLayer
      ensures ok <==> layer == newLayer || layer in old(overlayLayers)
      ensures !ok || layer == newLayer ==> unchanged(this)
      ensures ok && layer != newLayer ==>
        var i := Position(old(overlayLayers), layer).value;
        overlayLayers == old(overlayLayers)[i := newLayer]
        && imageLayers == (old(imageLayers) - {layer})[newLayer := old(imageLayers)[layer].(layer := newLayer)]
        && selectedLayer == if old(selectedLayer) == Some(layer) then Some(newLayer)
                            else old(selectedLayer)
      ensures newLayer !in old(overlayLayers) ==> Valid()
      ensures ok && layer != newLayer && newLayer in old(overlayLayers)
              ==> !Distinct(overlayLayers)
    {
      if layer == newLayer {
        return true;
      }
      if layer !in overlayLayers {
        return false;
      }
      var imageLayer := imageLayers[layer];
      var idx := Position(overlayLayers, layer).value;
      RenamedLayers(overlayLayers, imageLayers, selectedLayer, idx, newLayer);
      overlayLayers := overlayLayers[idx := newLayer];
      imageLayers := (imageLayers - {layer})[newLayer := imageLayer.(layer := newLayer)];
      if selectedLayer == Some(layer) {
        selectedLayer := Some(newLayer);
      }
      ok := true;
    }

    /** `swapLayers`: the two layers exchange their places in the stack; the backend refuses,
        and nothing changes, unless both are in it. */
    method SwapLayers(firstLayer: string, secondLayer: string) returns (ok: bool)
      requires Valid()
      modifies this`overlayLayers
      ensures Valid()
      ensures ok <==> firstLayer in old(overlayLayers) && secondLayer in old(overlayLayers)
      ensures !ok ==> overlayLayers == old(overlayLayers)
      ensures ok ==>
        var i := Position(old(overlayLayers), firstLayer).value;
        var j := Position(old(overlayLayers), secondLayer).value;
        overlayLayers == Swap(old(overlayLayers), i, j)
        && overlayLayers[i] == secondLayer && overlayLayers[j] == firstLayer
    {
      if firstLayer !in overlayLayers || secondLayer !in overlayLayers {
        return false;
      }
      var idxFirstLayer := Position(overlayLayers, firstLayer).value;
      var idxSecondLayer := Position(overlayLayers, secondLayer).value;
      SwappedOrder(overlayLayers, idxFirstLayer, idxSecondLayer);
      var tmp := overlayLayers[idxFirstLayer];
      overlayLayers := overlayLayers[idxFirstLayer := overlayLayers[idxSecondLayer]];
      overlayLayers := overlayLayers[idxSecondLayer := tmp];
      ok := true;
    }

    /** `removeImageLayer`: nothing for a layer the view does not have; otherwise the layer
        leaves the map and the stack; the view becomes empty with the last layer, and the
        top layer is selected if the removed one was. `setBase` is whether the default
        survey is then set as base layer: the view is empty and no layer is still loading. */
    method RemoveImageLayer(layer: string, noPendingLayers: bool) returns (setBase: bool)
      requires Valid()
      modifies this`overlayLayers, this`imageLayers, this`selectedLayer, this`empty
      ensures Valid()
      ensures layer !in old(imageLayers) ==> unchanged(this) && !setBase
      ensures layer in old(imageLayers) ==>
        imageLayers == old(imageLayers) - {layer}
        && overlayLayers == RemoveAt(old(overlayLayers), Position(old(overlayLayers), layer).value)
        && empty == (old(empty) || overlayLayers == [])
        && selectedLayer == (if overlayLayers != [] && old(selectedLayer) == Some(layer)
                             then Some(overlayLayers[|overlayLayers| - 1])
                             else old(selectedLayer))
        && setBase == (noPendingLayers && empty)
    {
      if layer !in imageLayers {
        return false;
      }
      var idxOverlaidLayer := Position(overlayLayers, layer).value;
      var layers := RemoveAt(overlayLayers, idxOverlaidLayer);
      var selected := selectedLayer;
      if |layers| == 0 {
        empty := true;
      } else if selected == Some(layer) {
        selected := Some(layers[|layers| - 1]);
      }
      RemovedLayers(overlayLayers, imageLayers, selectedLayer, idxOverlaidLayer);
      overlayLayers, imageLayers, selectedLayer := layers, imageLayers - {layer}, selected;
      setBase := noPendingLayers && empty;
    }
  }

  /** Removing the layer at position i from the stack and the map keeps the layers
      consistent, once the top layer is selected in place of a removed selected one. */
  lemma RemovedLayers(overlayLayers: seq<string>, imageLayers: map<string, ImageLayer>,
                      selectedLayer: Option<string>, i: nat)
    requires LayersConsistent(overlayLayers, imageLayers, selectedLayer)
    requires i < |overlayLayers|
    ensures var layer := overlayLayers[i];
      var layers := RemoveAt(overlayLayers, i);
      LayersConsistent(layers, imageLayers - {layer},
                       if layers != [] && selectedLayer == Some(layer)
                       then Some(layers[|layers| - 1]) else selectedLayer)
  {
    DistinctRemoveAt(overlayLayers, i);
  }

  lemma AppendDistinct(s: seq<string>, x: string)
    requires Distinct(s) && x !in s
    ensures Distinct(s + [x])
  {
  }

  /** Renaming position i to a name not in the stack keeps the layers consistent; renaming
      it to another name of the stack leaves that name twice. */
  lemma RenamedLayers(overlayLayers: seq<string>, imageLayers: map<string, ImageLayer>,
                      selectedLayer: Option<string>, i: nat, newLayer: string)
    requires LayersConsistent(overlayLayers, imageLayers, selectedLayer)
    requires i < |overlayLayers| && newLayer != overlayLayers[i]
    ensures var layer := overlayLayers[i];
      newLayer !in overlayLayers ==>
        LayersConsistent(overlayLayers[i := newLayer],
                         (imageLayers - {layer})[newLayer := imageLayers[layer].(layer := newLayer)],
                         if selectedLayer == Some(layer) then Some(newLayer) else selectedLayer)
    ensures newLayer in overlayLayers ==> !Distinct(overlayLayers[i := newLayer])
  {
    if newLayer !in overlayLayers {
      RenamedOrder(overlayLayers, i, newLayer);
    } else {
      var j :| 0 <= j < |overlayLayers| && overlayLayers[j] == newLayer;
      var renamed := overlayLayers[i := newLayer];
      assert i != j && renamed[i] == newLayer && renamed[j] == newLayer;
    }
  }
}
