/** HWC2OnFbAdapter with the DSS overlay fallback: the layer table, validation, acceptance, and
    presenting through the overlay engine or the framebuffer. */
module OverlayAdapter {
  import opened Common
  import opened OverlayGeometry

  type LayerId = nat

  const HWC2_COMPOSITION_CLIENT := 1
  const HWC2_COMPOSITION_DEVICE := 2

  const DPE0_CHN0 := 0
  const DPE0_CHN3 := 3

  datatype LayerState = LayerState(
    buffer: Option<Buffer>,
    requestedType: int,
    validatedType: int,
    blendMode: BlendMode,
    displayFrame: Rect,
    sourceCrop: Crop,
    planeAlpha: real,
    transform: int,
    z: nat)

  const NEW_LAYER := LayerState(None, HWC2_COMPOSITION_CLIENT, HWC2_COMPOSITION_CLIENT, NoBlend,
                                Rect(0, 0, 0, 0), Crop(0.0, 0.0, 0.0, 0.0), 1.0, 0, 0)

  /** The argument of a layer setter; all but the buffer setter have the same shape. */
  datatype Attribute =
    | CompositionType(kind: int)
    | BlendModeIs(mode: BlendMode)
    | DisplayFrame(frame: Rect)
    | PlaneAlpha(alpha: real)
    | SourceCrop(crop: Crop)
    | Transform(transform: int)
    | ZOrder(z: nat)

  function WithAttribute(l: LayerState, a: Attribute): LayerState {
    match a
    case CompositionType(kind) => l.(requestedType := kind)
    case BlendModeIs(mode) => l.(blendMode := mode)
    case DisplayFrame(frame) => l.(displayFrame := frame)
    case PlaneAlpha(alpha) => l.(planeAlpha := alpha)
    case SourceCrop(crop) => l.(sourceCrop := crop)
    case Transform(transform) => l.(transform := transform)
    case ZOrder(z) => l.(z := z)
  }

  /** Field by field, what a setter leaves: the argument in the attribute's own field, and everything else
      as it was; validation's and the buffer's fields have other setters. */
  lemma AttributeByField(l: LayerState, a: Attribute)
    ensures var m := WithAttribute(l, a);
            && m.requestedType == (if a.CompositionType? then a.kind else l.requestedType)
            && m.blendMode == (if a.BlendModeIs? then a.mode else l.blendMode)
            && m.displayFrame == (if a.DisplayFrame? then a.frame else l.displayFrame)
            && m.planeAlpha == (if a.PlaneAlpha? then a.alpha else l.planeAlpha)
            && m.sourceCrop == (if a.SourceCrop? then a.crop else l.sourceCrop)
            && m.transform == (if a.Transform? then a.transform else l.transform)
            && m.z == (if a.ZOrder? then a.z else l.z)
            && m.buffer == l.buffer && m.validatedType == l.validatedType
  {
  }

  /** A new layer has no buffer and no place, is opaque and upright, and is left to the client. */
  lemma NewLayerIsEmpty()
    ensures NEW_LAYER.buffer == None && Pixels(NEW_LAYER.displayFrame) == {}
    ensures NEW_LAYER.requestedType == NEW_LAYER.validatedType == HWC2_COMPOSITION_CLIENT
    ensures NEW_LAYER.blendMode == NoBlend && NEW_LAYER.planeAlpha == 1.0 && NEW_LAYER.transform == 0
    ensures NEW_LAYER.displayFrame == Rect(0, 0, 0, 0) && NEW_LAYER.sourceCrop == Crop(0.0, 0.0, 0.0, 0.0)
    ensures NEW_LAYER.z == 0
  {
  }

  datatype Validity = Modified | ValidatedWithChanges | Validated

  /** The adapter's fields. */
  datatype Adapter = Adapter(
    info: Info,
    nextLayerId: LayerId,
    layers: set<LayerId>,
    states: map<LayerId, LayerState>,
    changedTypes: map<LayerId, int>,
    clearLayers: set<LayerId>,
    buffer: Option<Buffer>,
    overlayEnabled: bool,
    disabledByError: bool,
    hasOverlay: bool,
    usesClientTarget: bool,
    overlayLayer: LayerId,
    validity: Validity)

  // ---------------------------------------------------------------------------------------------
  // Choosing the overlay layer
  // ---------------------------------------------------------------------------------------------

  /** The tests that do not look at the buffer or at the requested type. */
  predicate Placeable(info: Info, l: LayerState) {
    && l.transform == 0
    && l.planeAlpha >= 0.999
    && RectIsValid(l.displayFrame)
    && FrameFitsDisplay(l.displayFrame, info)
    && CropIsValid(l.sourceCrop)
  }

  function VideoLayer(l: LayerState): Option<DssLayer> {
    FillDssLayer(l.buffer, l.sourceCrop, l.displayFrame, NoBlend, 1.0, l.transform, 0, DPE0_CHN0, {CapDma})
  }

  predicate Eligible(info: Info, l: LayerState) {
    && l.requestedType == HWC2_COMPOSITION_DEVICE
    && Placeable(info, l)
    && GetHisiFormat(l.buffer).Some? && IsYuvFormat(GetHisiFormat(l.buffer).value)
    && VideoLayer(l).Some?
  }

  /** The overlay takes exactly the layers that ask for a device and have a video buffer, a crop that is not
      empty and lies in the buffer, a frame that is not empty and lies on the display, no transform, and a
      plane alpha of at least 0.999. */
  lemma EligibleExactly(info: Info, l: LayerState)
    ensures Eligible(info, l)
            <==> && l.requestedType == 2 && l.transform == 0 && l.planeAlpha >= 0.999
                 && l.buffer.Some? && l.buffer.value.isHisi
                 && l.buffer.value.format in {YCbCr422Sp, YCrCb420Sp, Yv12, Vendor(0x100), Vendor(0x101)}
                 && 0.0 <= l.sourceCrop.left < l.sourceCrop.right <= l.buffer.value.width as real
                 && 0.0 <= l.sourceCrop.top < l.sourceCrop.bottom <= l.buffer.value.height as real
                 && Pixels(l.displayFrame) != {}
                 && forall x, y :: (x, y) in Pixels(l.displayFrame) ==>
                      0 <= x < ToInt32(info.width) && 0 <= y < ToInt32(info.height)
  {
    if l.buffer.Some? {
      VideoFormats(l.buffer.value.format);
      ConversionKeepsLayout(l.buffer.value.format);
    }
    FilledExactly(l.buffer, l.sourceCrop, l.displayFrame, NoBlend, 1.0, l.transform, 0, DPE0_CHN0, {CapDma});
    PixelsOfValid(l.displayFrame);
    if RectIsValid(l.displayFrame) {
      FitsByPixels(l.displayFrame, info);
    }
  }

  lemma FitsByPixels(r: Rect, info: Info)
    requires RectIsValid(r)
    ensures FrameFitsDisplay(r, info)
            <==> forall x, y :: (x, y) in Pixels(r) ==> 0 <= x < ToInt32(info.width) && 0 <= y < ToInt32(info.height)
  {
    assert (r.left, r.top) in Pixels(r) && (r.right - 1, r.bottom - 1) in Pixels(r);
  }

  /** What the first loop of validateLayers() finds when it visits the entries in the given order. */
  function Pick(info: Info, states: map<LayerId, LayerState>, order: seq<LayerId>): (LayerId, nat)
    requires forall id <- order :: id in states
  {
    if order == [] then (0, 0)
    else
      var (best, bestArea) := Pick(info, states, order[..|order| - 1]);
      var id := order[|order| - 1];
      var area := FrameArea(states[id].displayFrame);
      if Eligible(info, states[id]) && area > bestArea then (id, area) else (best, bestArea)
  }

  /** `order` visits every entry of the map once. */
  ghost predicate Visits(order: seq<LayerId>, states: map<LayerId, LayerState>) {
    && (forall id :: id in order <==> id in states)
    && (forall i, j :: 0 <= i < j < |order| ==> order[i] != order[j])
  }

  /** 0 stands for no layer. It is chosen exactly when no layer is eligible; otherwise the layer chosen
      is eligible and no eligible layer has a larger frame. */
  ghost predicate IsChoice(info: Info, states: map<LayerId, LayerState>, choice: LayerId) {
    && (choice == 0 <==> forall id <- states :: !Eligible(info, states[id]))
    && (choice != 0 ==>
          && choice in states && Eligible(info, states[choice])
          && forall id <- states :: Eligible(info, states[id]) ==>
               FrameArea(states[id].displayFrame) <= FrameArea(states[choice].displayFrame))
  }

  lemma {:induction false} PickIsBest(info: Info, states: map<LayerId, LayerState>, order: seq<LayerId>)
    requires 0 !in states && forall id <- order :: id in states
    ensures var (best, area) := Pick(info, states, order);
            && (best == 0 <==> forall id <- order :: !Eligible(info, states[id]))
            && (best == 0 <==> area == 0)
            && (best != 0 ==>
                  best in order && Eligible(info, states[best]) && area == FrameArea(states[best].displayFrame))
            && forall id <- order :: Eligible(info, states[id]) ==> FrameArea(states[id].displayFrame) <= area
  {
    if order != [] {
      var n := |order| - 1;
      PickIsBest(info, states, order[..n]);
      assert order == order[..n] + [order[n]];
    }
  }

  lemma {:induction false} FirstBestStays(info: Info, states: map<LayerId, LayerState>, choice: LayerId,
                                          rest: seq<LayerId>)
    requires choice != 0 && IsChoice(info, states, choice) && forall id <- rest :: id in states
    ensures Pick(info, states, [choice] + rest) == (choice, FrameArea(states[choice].displayFrame))
  {
    if rest == [] {
      assert ([choice] + rest)[..0] == [];
    } else {
      var n := |rest| - 1;
      FirstBestStays(info, states, choice, rest[..n]);
      assert ([choice] + rest)[..n + 1] == [choice] + rest[..n];
    }
  }

  lemma Enumerate(ids: set<LayerId>) returns (order: seq<LayerId>)
    ensures forall id :: id in order <==> id in ids
    ensures forall i, j :: 0 <= i < j < |order| ==> order[i] != order[j]
  {
    order := [];
    var left := ids;
    while left != {}
      invariant left <= ids
      invariant forall id :: id in order <==> id in ids - left
      invariant forall i, j :: 0 <= i < j < |order| ==> order[i] != order[j]
      decreases left
    {
      var id :| id in left;
      assert ids - (left - {id}) == (ids - left) + {id};
      order, left := order + [id], left - {id};
    }
    assert ids - left == ids;
  }

  lemma ChoiceHasOrder(info: Info, states: map<LayerId, LayerState>, choice: LayerId) returns (order: seq<LayerId>)
    requires 0 !in states && IsChoice(info, states, choice)
    ensures Visits(order, states) && Pick(info, states, order).0 == choice
  {
    var rest := Enumerate(states.Keys - {choice});
    if choice == 0 {
      order := rest;
      PickIsBest(info, states, order);
    } else {
      order := [choice] + rest;
      FirstBestStays(info, states, choice, rest);
    }
  }

  lemma OrderGivesChoice(info: Info, states: map<LayerId, LayerState>, order: seq<LayerId>)
    requires 0 !in states && Visits(order, states)
    ensures IsChoice(info, states, Pick(info, states, order).0)
  {
    PickIsBest(info, states, order);
  }

  /** IsChoice is exactly what the loop can find, over all orders in which a map may be visited. */
  lemma ChoicesAreOrders(info: Info, states: map<LayerId, LayerState>, choice: LayerId)
    requires 0 !in states
    ensures IsChoice(info, states, choice)
            <==> exists order :: Visits(order, states) && Pick(info, states, order).0 == choice
  {
    if order :| Visits(order, states) && Pick(info, states, order).0 == choice {
      OrderGivesChoice(info, states, order);
    }
    if IsChoice(info, states, choice) {
      var _ := ChoiceHasOrder(info, states, choice);
    }
  }

  // ---------------------------------------------------------------------------------------------
  // The operations as functions on the fields
  // ---------------------------------------------------------------------------------------------

  /** What validateLayers() may choose, with the overlay property as given. */
  ghost predicate MayChoose(a: Adapter, property: bool, choice: LayerId) {
    if property && !a.disabledByError then IsChoice(a.info, a.states, choice) else choice == 0
  }

  function ValidatedTypeOf(id: LayerId, choice: LayerId): int {
    if choice != 0 && id == choice then HWC2_COMPOSITION_DEVICE else HWC2_COMPOSITION_CLIENT
  }

  /** The layer states once the entries in `done` have got their validated types. */
  function Typed(states: map<LayerId, LayerState>, done: set<LayerId>, choice: LayerId): map<LayerId, LayerState> {
    map id <- states ::
      if id in done then states[id].(validatedType := ValidatedTypeOf(id, choice)) else states[id]
  }

  /** The changed types among the entries in `done`. */
  function Changes(states: map<LayerId, LayerState>, done: set<LayerId>, choice: LayerId): map<LayerId, int> {
    map id <- states | id in done && states[id].requestedType != ValidatedTypeOf(id, choice)
      :: ValidatedTypeOf(id, choice)
  }

  /** Some layer among `ids` is left to the client. */
  predicate HasClient(ids: set<LayerId>, choice: LayerId) {
    exists id <- ids :: ValidatedTypeOf(id, choice) == HWC2_COMPOSITION_CLIENT
  }

  function Accepted(states: map<LayerId, LayerState>, done: set<LayerId>): map<LayerId, LayerState> {
    map id <- states :: if id in done then states[id].(requestedType := states[id].validatedType) else states[id]
  }

  lemma OneMoreTyped(states: map<LayerId, LayerState>, done: set<LayerId>, choice: LayerId, id: LayerId)
    requires id in states && id !in done
    ensures var t := ValidatedTypeOf(id, choice);
            && Typed(states, done + {id}, choice)
               == Typed(states, done, choice)[id := Typed(states, done, choice)[id].(validatedType := t)]
            && Changes(states, done + {id}, choice)
               == if states[id].requestedType != t then Changes(states, done, choice)[id := t]
                  else Changes(states, done, choice)
  {
  }

  lemma OneMoreAccepted(states: map<LayerId, LayerState>, done: set<LayerId>, id: LayerId)
    requires id in states && id !in done
    ensures var before := Accepted(states, done);
            Accepted(states, done + {id}) == before[id := before[id].(requestedType := before[id].validatedType)]
  {
  }

  function ForgetValidation(a: Adapter, property: bool): Adapter {
    a.(changedTypes := map[], clearLayers := {}, hasOverlay := false, usesClientTarget := false,
       overlayEnabled := property, disabledByError := a.disabledByError && property)
  }

  function Retype(a: Adapter, choice: LayerId): Adapter {
    a.(states := Typed(a.states, a.states.Keys, choice), changedTypes := Changes(a.states, a.states.Keys, choice))
  }

  /** With an overlay and client layers both, the overlay's place in the client target must be cleared. */
  function Conclude(a: Adapter, choice: LayerId): Adapter {
    var uses := choice != 0 && HasClient(a.states.Keys, choice);
    var clear := if uses then {choice} else {};
    a.(clearLayers := clear,
       hasOverlay := choice != 0,
       usesClientTarget := uses,
       overlayLayer := if choice != 0 then choice else a.overlayLayer,
       validity := if |a.changedTypes| > 0 || |clear| > 0 then ValidatedWithChanges else Validated)
  }

  function Validate(a: Adapter, property: bool, choice: LayerId): Adapter {
    Conclude(Retype(ForgetValidation(a, property), choice), choice)
  }

  /** acceptDisplayChanges: refused, without effect, unless the display was validated. */
  function Accept(a: Adapter): Adapter {
    if a.validity == Modified then a
    else
      a.(states := Accepted(a.states, a.states.Keys),
         changedTypes := map[],
         validity := Validated)
  }

  function CreateLayer(a: Adapter): Adapter {
    var id := a.nextLayerId + 1;
    a.(nextLayerId := id, layers := a.layers + {id}, states := a.states[id := NEW_LAYER])
  }

  function DestroyLayer(a: Adapter, id: LayerId): Adapter {
    if id !in a.layers then a
    else
      var isOverlay := a.hasOverlay && a.overlayLayer == id;
      a.(layers := a.layers - {id}, states := a.states - {id},
         changedTypes := a.changedTypes - {id}, clearLayers := a.clearLayers - {id},
         hasOverlay := a.hasOverlay && !isOverlay,
         usesClientTarget := a.usesClientTarget && !isOverlay)
  }

  function SetLayerBuffer(a: Adapter, id: LayerId, buffer: Option<Buffer>): Adapter {
    if id !in a.states then a else a.(states := a.states[id := a.states[id].(buffer := buffer)])
  }

  function SetAttribute(a: Adapter, id: LayerId, attribute: Attribute): Adapter {
    if id !in a.states then a
    else a.(states := a.states[id := WithAttribute(a.states[id], attribute)], validity := Modified)
  }

  /** The latch: every failing exit of postOverlay() after its first tests. */
  function Latch(a: Adapter): Adapter {
    a.(disabledByError := true, hasOverlay := false, usesClientTarget := false, validity := Modified)
  }

  function ClientLayer(a: Adapter): Option<DssLayer> {
    FillDssLayer(a.buffer, Crop(0.0, 0.0, a.info.width as real, a.info.height as real),
                 Rect(0, 0, ToInt32(a.info.width), ToInt32(a.info.height)),
                 Premultiplied, 1.0, 0, 1, DPE0_CHN3, {CapFbPost})
  }

  /** The layers postOverlay() hands to the hardware, if it gets that far. */
  function OverlayStack(a: Adapter): Option<seq<DssLayer>>
    requires a.overlayLayer in a.states
  {
    var video := VideoLayer(a.states[a.overlayLayer]);
    if (a.usesClientTarget && a.buffer.None?) || video.None? then None
    else if !a.usesClientTarget then Some([video.value])
    else if ClientLayer(a).None? then None
    else Some([video.value, ClientLayer(a).value])
  }

  /** What a present does: the adapter after it, the overlay given to the ioctl, whether the hardware
      took it, and the buffer posted to the framebuffer. */
  datatype Outcome = Outcome(adapter: Adapter, submitted: Option<seq<DssLayer>>, shown: bool, posted: Option<Buffer>)

  /** postBuffer(); `opens` and `plays` say whether opening the device and the ioctl succeed. */
  function Present(a: Adapter, opens: bool, plays: bool): Outcome {
    if !a.hasOverlay || a.disabledByError || a.overlayLayer !in a.states then
      Outcome(a, None, false, a.buffer)
    else
      var stack := OverlayStack(a);
      if stack.None? || !opens then Outcome(Latch(a), None, false, a.buffer)
      else if !plays then Outcome(Latch(a), stack, false, a.buffer)
      else Outcome(a, stack, true, None)
  }

  // ---------------------------------------------------------------------------------------------
  // The object
  // ---------------------------------------------------------------------------------------------

  class HWC2OnFbAdapter {
    const mFbInfo: Info
    var mNextLayerId: LayerId
    var mLayers: set<LayerId>
    var mLayerStates: map<LayerId, LayerState>
    var mChangedTypes: map<LayerId, int>
    var mClearClientTargetLayers: set<LayerId>
    var mBuffer: Option<Buffer>
    var mOverlayEnabled: bool
    var mOverlayDisabledByError: bool
    var mHasOverlayLayer: bool
    var mOverlayUsesClientTarget: bool
    var mOverlayLayer: LayerId
    var mState: Validity

    ghost function View(): Adapter
      reads this
    {
      Adapter(mFbInfo, mNextLayerId, mLayers, mLayerStates, mChangedTypes, mClearClientTargetLayers, mBuffer,
              mOverlayEnabled, mOverlayDisabledByError, mHasOverlayLayer, mOverlayUsesClientTarget,
              mOverlayLayer, mState)
    }

    constructor (info: Info)
      ensures View() == Adapter(info, 0, {}, map[], map[], {}, None, false, false, false, false, 0, Modified)
    {
      mFbInfo := info;
      mNextLayerId, mLayers, mLayerStates := 0, {}, map[];
      mChangedTypes, mClearClientTargetLayers, mBuffer := map[], {}, None;
      mOverlayEnabled, mOverlayDisabledByError := false, false;
      mHasOverlayLayer, mOverlayUsesClientTarget, mOverlayLayer := false, false, 0;
      mState := Modified;
    }

    method AddLayer() returns (id: LayerId)
      modifies this
      ensures View() == CreateLayer(old(View())) && id == old(mNextLayerId) + 1
    {
      mNextLayerId := mNextLayerId + 1;
      id := mNextLayerId;
      mLayers := mLayers + {id};
      mLayerStates := mLayerStates[id := NEW_LAYER];
    }

    method RemoveLayer(layer: LayerId) returns (known: bool)
      modifies this
      ensures View() == DestroyLayer(old(View()), layer) && (known <==> layer in old(mLayers))
    {
      if layer !in mLayers {
        return false;
      }
      mLayers := mLayers - {layer};
      mLayerStates := mLayerStates - {layer};
      mChangedTypes := mChangedTypes - {layer};
      mClearClientTargetLayers := mClearClientTargetLayers - {layer};
      if mHasOverlayLayer && mOverlayLayer == layer {
        mHasOverlayLayer := false;
        mOverlayUsesClientTarget := false;
      }
      return true;
    }

    method SetBufferOfLayer(layer: LayerId, buffer: Option<Buffer>) returns (known: bool)
      modifies this`mLayerStates
      ensures View() == SetLayerBuffer(old(View()), layer, buffer) && (known <==> layer in old(mLayerStates))
    {
      if layer !in mLayerStates {
        return false;
      }
      mLayerStates := mLayerStates[layer := mLayerStates[layer].(buffer := buffer)];
      return true;
    }

    /** A layer setter together with its hook, which resets the state. */
    method SetAttributeOfLayer(layer: LayerId, attribute: Attribute) returns (known: bool)
      modifies this`mLayerStates, this`mState
      ensures View() == SetAttribute(old(View()), layer, attribute) && (known <==> layer in old(mLayerStates))
    {
      if layer !in mLayerStates {
        return false;
      }
      mLayerStates := mLayerStates[layer := WithAttribute(mLayerStates[layer], attribute)];
      mState := Modified;
      return true;
    }

    /** The first loop of validateLayers(): any order of visiting the map. */
    method ChooseOverlay() returns (overlayLayer: LayerId)
      requires 0 !in mLayerStates
      ensures IsChoice(mFbInfo, mLayerStates, overlayLayer)
    {
      overlayLayer := 0;
      var overlayArea := 0;
      var todo := mLayerStates.Keys;
      while todo != {}
        invariant todo <= mLayerStates.Keys
        invariant overlayLayer == 0 <==> overlayArea == 0
        invariant overlayLayer != 0 ==>
                    && overlayLayer in mLayerStates && Eligible(mFbInfo, mLayerStates[overlayLayer])
                    && overlayArea == FrameArea(mLayerStates[overlayLayer].displayFrame)
        invariant forall id <- mLayerStates.Keys - todo :: Eligible(mFbInfo, mLayerStates[id]) ==>
                    FrameArea(mLayerStates[id].displayFrame) <= overlayArea
        decreases todo
      {
        var id :| id in todo;
        todo := todo - {id};
        var state := mLayerStates[id];
        if Eligible(mFbInfo, state) {
          var area := FrameArea(state.displayFrame);
          if area > overlayArea {
            overlayArea := area;
            overlayLayer := id;
          }
        }
      }
    }

    /** The second loop of validateLayers(). */
    method AssignTypes(overlayLayer: LayerId) returns (hasClientComposition: bool)
      requires mChangedTypes == map[]
      modifies this`mLayerStates, this`mChangedTypes
      ensures mLayerStates == Typed(old(mLayerStates), old(mLayerStates).Keys, overlayLayer)
      ensures mChangedTypes == Changes(old(mLayerStates), old(mLayerStates).Keys, overlayLayer)
      ensures hasClientComposition <==> HasClient(old(mLayerStates).Keys, overlayLayer)
    {
      hasClientComposition := false;
      var todo := mLayerStates.Keys;
      ghost var states := mLayerStates;
      ghost var done: set<LayerId> := {};
      while todo != {}
        invariant done + todo == states.Keys && done !! todo
        invariant mLayerStates == Typed(states, done, overlayLayer)
        invariant mChangedTypes == Changes(states, done, overlayLayer)
        invariant hasClientComposition <==> HasClient(done, overlayLayer)
        decreases todo
      {
        var id :| id in todo;
        todo := todo - {id};
        OneMoreTyped(states, done, overlayLayer, id);
        var validatedType := ValidatedTypeOf(id, overlayLayer);
        if mLayerStates[id].requestedType != validatedType {
          mChangedTypes := mChangedTypes[id := validatedType];
        }
        mLayerStates := mLayerStates[id := mLayerStates[id].(validatedType := validatedType)];
        if validatedType == HWC2_COMPOSITION_CLIENT {
          hasClientComposition := true;
        }
        done := done + {id};
      }
      assert done == states.Keys;
    }

    /** validateLayers() up to the choice: the results of the last validation are dropped, and the
        error latch is released when the property is found off. */
    method BeginValidation(property: bool) returns (overlayLayer: LayerId)
      requires 0 !in mLayerStates
      modifies this`mChangedTypes, this`mClearClientTargetLayers, this`mHasOverlayLayer,
               this`mOverlayUsesClientTarget, this`mOverlayEnabled, this`mOverlayDisabledByError
      ensures MayChoose(old(View()), property, overlayLayer)
      ensures View() == ForgetValidation(old(View()), property)
    {
      mChangedTypes := map[];
      mClearClientTargetLayers := {};
      mHasOverlayLayer := false;
      mOverlayUsesClientTarget := false;
      mOverlayEnabled := property;
      if !mOverlayEnabled {
        mOverlayDisabledByError := false;
      }
      overlayLayer := 0;
      if mOverlayEnabled && !mOverlayDisabledByError {
        overlayLayer := ChooseOverlay();
      }
    }

    /** validateLayers() and its hook. `property` is the value of the overlay property. */
    method ValidateLayers(property: bool) returns (numTypes: nat, numRequests: nat, ghost choice: LayerId)
      requires 0 !in mLayerStates
      modifies this
      ensures MayChoose(old(View()), property, choice)
      ensures View() == Validate(old(View()), property, choice)
      ensures numTypes == |View().changedTypes| && numRequests == |View().clearLayers|
    {
      var overlayLayer := BeginValidation(property);
      choice := overlayLayer;
      var hasClientComposition := AssignTypes(overlayLayer);
      assert View() == Retype(ForgetValidation(old(View()), property), overlayLayer);
      RecordOverlay(overlayLayer, hasClientComposition);
      numTypes, numRequests := |mChangedTypes|, |mClearClientTargetLayers|;
    }

    /** The end of validateLayers() and its hook. */
    method RecordOverlay(overlayLayer: LayerId, hasClientComposition: bool)
      requires hasClientComposition <==> HasClient(mLayerStates.Keys, overlayLayer)
      requires mClearClientTargetLayers == {} && !mHasOverlayLayer && !mOverlayUsesClientTarget
      modifies this
      ensures View() == Conclude(old(View()), overlayLayer)
    {
      if overlayLayer != 0 {
        mHasOverlayLayer := true;
        mOverlayLayer := overlayLayer;
        if hasClientComposition {
          mOverlayUsesClientTarget := true;
          mClearClientTargetLayers := mClearClientTargetLayers + {overlayLayer};
        }
      }
      if |mChangedTypes| > 0 || |mClearClientTargetLayers| > 0 {
        mState := ValidatedWithChanges;
      } else {
        mState := Validated;
      }
    }

    /** acceptChanges() and its hook. */
    method AcceptChanges() returns (validated: bool)
      modifies this
      ensures View() == Accept(old(View())) && (validated <==> old(mState) != Modified)
    {
      if mState == Modified {
        return false;
      }
      var todo := mLayerStates.Keys;
      ghost var states := mLayerStates;
      ghost var done: set<LayerId> := {};
      while todo != {}
        invariant done + todo == states.Keys && done !! todo
        invariant mLayerStates == Accepted(states, done)
        invariant View() == old(View()).(states := mLayerStates)
        decreases todo
      {
        var id :| id in todo;
        todo := todo - {id};
        OneMoreAccepted(states, done, id);
        mLayerStates := mLayerStates[id := mLayerStates[id].(requestedType := mLayerStates[id].validatedType)];
        done := done + {id};
      }
      assert done == states.Keys;
      mChangedTypes := map[];
      mState := Validated;
      return true;
    }

    method SetBuffer(buffer: Option<Buffer>)
      modifies this`mBuffer
      ensures View() == old(View()).(buffer := buffer)
    {
      mBuffer := buffer;
    }

    /** The common tail of the failing exits of postOverlay(). */
    method DisableByError()
      modifies this
      ensures View() == Latch(old(View()))
    {
      mOverlayDisabledByError := true;
      mHasOverlayLayer := false;
      mOverlayUsesClientTarget := false;
      mState := Modified;
    }

    method PostOverlay(opens: bool, plays: bool) returns (shown: bool, submitted: Option<seq<DssLayer>>)
      modifies this
      ensures var o := Present(old(View()), opens, plays);
              View() == o.adapter && submitted == o.submitted && shown == o.shown
    {
      if !mHasOverlayLayer || mOverlayDisabledByError || mOverlayLayer !in mLayerStates {
        return false, None;
      }
      if mOverlayUsesClientTarget && mBuffer.None? {
        DisableByError();
        return false, None;
      }
      var video := mLayerStates[mOverlayLayer];
      var layerCount := 0;
      var videoLayer := FillDssLayer(video.buffer, video.sourceCrop, video.displayFrame, NoBlend, 1.0,
                                     video.transform, layerCount, DPE0_CHN0, {CapDma});
      if videoLayer.None? {
        DisableByError();
        return false, None;
      }
      var overlay := [videoLayer.value];
      layerCount := layerCount + 1;
      if mOverlayUsesClientTarget {
        var clientCrop := Crop(0.0, 0.0, mFbInfo.width as real, mFbInfo.height as real);
        var clientFrame := Rect(0, 0, ToInt32(mFbInfo.width), ToInt32(mFbInfo.height));
        var clientLayer := FillDssLayer(mBuffer, clientCrop, clientFrame, Premultiplied, 1.0, 0,
                                        layerCount, DPE0_CHN3, {CapFbPost});
        if clientLayer.None? {
          DisableByError();
          return false, None;
        }
        overlay := overlay + [clientLayer.value];
        assert overlay == [videoLayer.value, clientLayer.value];
        layerCount := layerCount + 1;
      }
      if !opens {
        DisableByError();
        return false, None;
      }
      if !plays {
        DisableByError();
        return false, Some(overlay);
      }
      return true, Some(overlay);
    }

    method PostBuffer(opens: bool, plays: bool) returns (submitted: Option<seq<DssLayer>>, posted: Option<Buffer>)
      modifies this
      ensures var o := Present(old(View()), opens, plays);
              View() == o.adapter && submitted == o.submitted && posted == o.posted
    {
      submitted := None;
      if mHasOverlayLayer {
        var shown;
        shown, submitted := PostOverlay(opens, plays);
        if shown {
          return submitted, None;
        }
      }
      return submitted, mBuffer;
    }
  }
}
