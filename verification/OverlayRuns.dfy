/** What holds of the overlay adapter over every sequence of calls. */
module OverlayRuns {
  import opened Common
  import opened OverlayGeometry
  import opened OverlayAdapter

  /** One call through the HWC2 hooks. The hooks that create and destroy layers are not part of the
      model: `resets` says whether they reset the validation state; so it does for the setters that store
      nothing (colour, dataspace, sideband stream, visible region). `choice` is the layer that validation
      picks, `opens` and `plays` are the outcomes of the device calls. */
  datatype Call =
    | Create(resets: bool)
    | Destroy(id: LayerId, resets: bool)
    | SetLayerBufferTo(id: LayerId, buffer: Option<Buffer>)
    | Set(id: LayerId, attribute: Attribute)
    | SetNothingStored(resets: bool)
    | SetClientTarget(buffer: Option<Buffer>)
    | ValidateDisplay(property: bool, choice: LayerId)
    | AcceptDisplayChanges
    | PresentDisplay(opens: bool, plays: bool)

  ghost predicate Possible(a: Adapter, call: Call) {
    call.ValidateDisplay? ==> MayChoose(a, call.property, call.choice)
  }

  function Reset(a: Adapter, resets: bool): Adapter {
    if resets then a.(validity := Modified) else a
  }

  /** Presenting is refused, without effect, unless the state is Validated. */
  function PresentOutcome(a: Adapter, opens: bool, plays: bool): Outcome {
    if a.validity != Validated then Outcome(a, None, false, None) else Present(a, opens, plays)
  }

  function Next(a: Adapter, call: Call): Adapter {
    match call
    case Create(resets) => Reset(CreateLayer(a), resets)
    case Destroy(id, resets) => Reset(DestroyLayer(a, id), resets)
    case SetLayerBufferTo(id, buffer) => SetLayerBuffer(a, id, buffer)
    case Set(id, attribute) => SetAttribute(a, id, attribute)
    case SetNothingStored(resets) => Reset(a, resets)
    case SetClientTarget(buffer) => a.(buffer := buffer)
    case ValidateDisplay(property, choice) => Validate(a, property, choice)
    case AcceptDisplayChanges => Accept(a)
    case PresentDisplay(opens, plays) => PresentOutcome(a, opens, plays).adapter
  }

  ghost predicate SameTables(a: Adapter, b: Adapter) {
    b.info == a.info && b.buffer == a.buffer && b.nextLayerId == a.nextLayerId && b.states.Keys == a.states.Keys
  }

  lemma ValidateKeepsTables(a: Adapter, property: bool, choice: LayerId)
    ensures SameTables(a, Validate(a, property, choice))
  {
    assert Validate(a, property, choice).states.Keys == a.states.Keys;
  }

  lemma AcceptKeepsTables(a: Adapter)
    ensures SameTables(a, Accept(a))
  {
    assert Accept(a).states.Keys == a.states.Keys;
  }

  lemma PresentKeepsTables(a: Adapter, opens: bool, plays: bool)
    ensures SameTables(a, PresentOutcome(a, opens, plays).adapter)
  {
  }

  lemma CreateTables(a: Adapter, resets: bool)
    ensures var b := Reset(CreateLayer(a), resets);
            && b.info == a.info && b.buffer == a.buffer && b.nextLayerId == a.nextLayerId + 1
            && b.states.Keys == a.states.Keys + {a.nextLayerId + 1}
  {
    assert CreateLayer(a).states.Keys == a.states.Keys + {a.nextLayerId + 1};
  }

  lemma DestroyTables(a: Adapter, id: LayerId, resets: bool)
    requires a.states.Keys == a.layers
    ensures var b := Reset(DestroyLayer(a, id), resets);
            && b.info == a.info && b.buffer == a.buffer && b.nextLayerId == a.nextLayerId
            && b.states.Keys == a.states.Keys - {id}
  {
    assert DestroyLayer(a, id).states.Keys == a.states.Keys - {id};
  }

  /** Who may change what in the tables: the client target only its setter; and layers come and go by
      creation and destruction. */
  lemma TablesChangeOnly(a: Adapter, call: Call)
    requires a.states.Keys == a.layers
    ensures var b := Next(a, call);
            && b.info == a.info && b.buffer == (if call.SetClientTarget? then call.buffer else a.buffer)
            && b.nextLayerId == a.nextLayerId + (if call.Create? then 1 else 0)
            && b.states.Keys == if call.Create? then a.states.Keys + {a.nextLayerId + 1}
                                else if call.Destroy? then a.states.Keys - {call.id} else a.states.Keys
  {
    match call
    case ValidateDisplay(property, choice) => ValidateKeepsTables(a, property, choice);
    case AcceptDisplayChanges => AcceptKeepsTables(a);
    case PresentDisplay(opens, plays) => PresentKeepsTables(a, opens, plays);
    case Create(resets) => CreateTables(a, resets);
    case Destroy(id, resets) => DestroyTables(a, id, resets);
    case SetLayerBufferTo(id, buffer) => assert Next(a, call).states.Keys == a.states.Keys;
    case Set(id, attribute) => assert Next(a, call).states.Keys == a.states.Keys;
    case SetNothingStored(_) =>
    case SetClientTarget(_) =>
  }

  /** What the layer's own setters make of it; the others leave it alone. */
  function Given(l: LayerState, call: Call, id: LayerId): LayerState {
    if call.Set? && call.id == id then WithAttribute(l, call.attribute)
    else if call.SetLayerBufferTo? && call.id == id then l.(buffer := call.buffer)
    else l
  }

  /** Who may change what of a layer: its setters; acceptance what is requested of it; and validation what
      was validated. */
  lemma LayerChangesOnly(a: Adapter, call: Call, id: LayerId)
    requires a.states.Keys == a.layers && (forall id <- a.layers :: id <= a.nextLayerId)
    requires id in a.states && !(call.Destroy? && call.id == id)
    ensures id in Next(a, call).states
    ensures var m, given := Next(a, call).states[id], Given(a.states[id], call, id);
            && (call.AcceptDisplayChanges? ==> m == given.(requestedType := m.requestedType))
            && (call.ValidateDisplay? ==> m == given.(validatedType := m.validatedType))
            && (!call.AcceptDisplayChanges? && !call.ValidateDisplay? ==> m == given)
  {
    match call
    case ValidateDisplay(property, choice) => ValidatedLayer(a, property, choice, id);
    case AcceptDisplayChanges => AcceptedLayer(a, id);
    case PresentDisplay(opens, plays) => PresentKeepsLayers(a, opens, plays);
    case Create(resets) => assert Next(a, call).states[id] == a.states[id];
    case Destroy(other, resets) => DestroyKeepsOthers(a, other, resets, id);
    case SetLayerBufferTo(_, _) =>
    case Set(_, _) =>
    case SetNothingStored(_) =>
    case SetClientTarget(_) =>
  }

  lemma AcceptedLayer(a: Adapter, id: LayerId)
    requires id in a.states
    ensures id in Accept(a).states
    ensures Accept(a).states[id] == a.states[id].(requestedType := Accept(a).states[id].requestedType)
  {
  }

  lemma PresentKeepsLayers(a: Adapter, opens: bool, plays: bool)
    ensures PresentOutcome(a, opens, plays).adapter.states == a.states
  {
  }

  lemma DestroyKeepsOthers(a: Adapter, other: LayerId, resets: bool, id: LayerId)
    requires id in a.states && id != other
    ensures var b := Reset(DestroyLayer(a, other), resets);
            id in b.states && b.states[id] == a.states[id]
  {
  }

  lemma ValidatedLayer(a: Adapter, property: bool, choice: LayerId, id: LayerId)
    requires id in a.states
    ensures var v := Validate(a, property, choice);
            id in v.states && v.states[id] == a.states[id].(validatedType := ValidatedTypeOf(id, choice))
  {
  }

  ghost predicate Run(a: Adapter, calls: seq<Call>, a': Adapter)
    decreases |calls|
  {
    if calls == [] then a' == a
    else Possible(a, calls[0]) && Run(Next(a, calls[0]), calls[1..], a')
  }

  ghost predicate Initial(a: Adapter) {
    a == Adapter(a.info, 0, {}, map[], map[], {}, None, false, false, false, false, 0, Modified)
  }

  ghost predicate Reachable(a: Adapter) {
    exists a0, calls :: Initial(a0) && Run(a0, calls, a)
  }

  // ---------------------------------------------------------------------------------------------
  // The invariant
  // ---------------------------------------------------------------------------------------------

  function DifferingTypes(states: map<LayerId, LayerState>): map<LayerId, int> {
    map id <- states | states[id].requestedType != states[id].validatedType :: states[id].validatedType
  }

  /** What the last validation established, until a setter or an error resets it. An overlay without the
      client target is alone but for layers created since, which have no place on the display yet. */
  ghost predicate Settled(a: Adapter)
    requires a.hasOverlay ==> a.overlayLayer in a.states
  {
    && a.clearLayers == (if a.usesClientTarget then {a.overlayLayer} else {})
    && (forall id <- a.states :: a.states[id].validatedType ==
          if a.hasOverlay && id == a.overlayLayer then HWC2_COMPOSITION_DEVICE else HWC2_COMPOSITION_CLIENT)
    && a.changedTypes == DifferingTypes(a.states)
    && (a.hasOverlay ==> Placeable(a.info, a.states[a.overlayLayer]))
    && (a.hasOverlay && !a.usesClientTarget ==>
          forall id <- a.states :: id != a.overlayLayer ==> !RectIsValid(a.states[id].displayFrame))
    && (a.validity == Validated ==> a.changedTypes == map[])
  }

  ghost predicate Inv(a: Adapter) {
    && a.states.Keys == a.layers && 0 !in a.layers && (forall id <- a.layers :: id <= a.nextLayerId)
    && (a.disabledByError ==> a.overlayEnabled)
    && (a.hasOverlay ==> a.overlayEnabled && !a.disabledByError && a.overlayLayer in a.states)
    && (a.usesClientTarget ==> a.hasOverlay)
    && (a.validity != Modified ==> Settled(a))
  }

  /** The changes the validation loop reports are those visible in the layer states after it. */
  lemma ChangesAreDifferences(states: map<LayerId, LayerState>, choice: LayerId)
    ensures Changes(states, states.Keys, choice) == DifferingTypes(Typed(states, states.Keys, choice))
  {
    var typed := Typed(states, states.Keys, choice);
    forall id <- states
      ensures typed[id].requestedType == states[id].requestedType
      ensures typed[id].validatedType == ValidatedTypeOf(id, choice)
    {
    }
  }

  lemma ChoiceIsPlaceable(a: Adapter, property: bool, choice: LayerId)
    requires Inv(a) && MayChoose(a, property, choice) && choice != 0
    ensures property && !a.disabledByError && choice in a.states && Placeable(a.info, a.states[choice])
  {
  }

  lemma OnlyTheOverlay(ids: set<LayerId>, choice: LayerId)
    requires !HasClient(ids, choice)
    ensures forall id <- ids :: id == choice
  {
  }

  lemma ValidateSettles(a: Adapter, property: bool, choice: LayerId)
    requires Inv(a) && MayChoose(a, property, choice)
    ensures Inv(Validate(a, property, choice))
  {
    var v := Validate(a, property, choice);
    assert v.states.Keys == a.states.Keys;
    if choice != 0 {
      ChoiceIsPlaceable(a, property, choice);
    }
    ValidateTypes(a, property, choice);
    assert Settled(v);
  }

  lemma ValidateTypes(a: Adapter, property: bool, choice: LayerId)
    ensures var v := Validate(a, property, choice);
            && (forall id <- v.states :: v.states[id].validatedType == ValidatedTypeOf(id, choice))
            && v.changedTypes == DifferingTypes(v.states)
            && (v.validity == Validated ==> v.changedTypes == map[])
            && (v.hasOverlay && !v.usesClientTarget ==> forall id <- v.states :: id == v.overlayLayer)
  {
    ChangesAreDifferences(a.states, choice);
    if choice != 0 && !HasClient(a.states.Keys, choice) {
      OnlyTheOverlay(a.states.Keys, choice);
    }
  }

  lemma AcceptSettles(a: Adapter)
    requires Inv(a)
    ensures Inv(Accept(a))
  {
    if a.validity != Modified {
      var b := Accept(a);
      assert b.states.Keys == a.states.Keys;
      assert DifferingTypes(b.states) == map[];
    }
  }

  lemma DestroySettles(a: Adapter, id: LayerId)
    requires Inv(a)
    ensures Inv(DestroyLayer(a, id))
  {
    var b := DestroyLayer(a, id);
    assert b.states.Keys == a.states.Keys - {id};
    if id in a.layers && a.validity != Modified {
      assert b.changedTypes == DifferingTypes(b.states);
    }
  }

  lemma CreateSettles(a: Adapter)
    requires Inv(a)
    ensures Inv(CreateLayer(a))
  {
    var b := CreateLayer(a);
    if a.validity != Modified {
      assert b.changedTypes == DifferingTypes(b.states);
    }
  }

  lemma SetBufferSettles(a: Adapter, id: LayerId, buffer: Option<Buffer>)
    requires Inv(a)
    ensures Inv(SetLayerBuffer(a, id, buffer))
  {
    var b := SetLayerBuffer(a, id, buffer);
    if a.validity != Modified {
      assert b.changedTypes == DifferingTypes(b.states);
    }
  }

  lemma CallKeepsInv(a: Adapter, call: Call)
    requires Inv(a) && Possible(a, call)
    ensures Inv(Next(a, call))
  {
    match call
    case Create(_) => CreateSettles(a);
    case Destroy(id, _) => DestroySettles(a, id);
    case SetLayerBufferTo(id, buffer) => SetBufferSettles(a, id, buffer);
    case ValidateDisplay(property, choice) => ValidateSettles(a, property, choice);
    case AcceptDisplayChanges => AcceptSettles(a);
    case _ =>
  }

  lemma {:induction false} RunKeepsInv(a: Adapter, calls: seq<Call>, a': Adapter)
    requires Inv(a) && Run(a, calls, a')
    ensures Inv(a')
    decreases |calls|
  {
    if calls != [] {
      CallKeepsInv(a, calls[0]);
      RunKeepsInv(Next(a, calls[0]), calls[1..], a');
    }
  }

  lemma ReachableInv(a: Adapter)
    requires Reachable(a)
    ensures Inv(a)
  {
    var a0, calls :| Initial(a0) && Run(a0, calls, a);
    RunKeepsInv(a0, calls, a);
  }

  /** The adapter invariant, over every sequence of calls. */
  lemma AdapterInvariant(a: Adapter)
    requires Reachable(a)
    ensures a.hasOverlay ==> a.overlayEnabled && !a.disabledByError && a.overlayLayer in a.states
    ensures a.usesClientTarget ==> a.hasOverlay
    ensures a.states.Keys == a.layers && a.nextLayerId + 1 !in a.layers
    ensures a.validity != Modified ==>
              && (a.clearLayers != {} <==> a.usesClientTarget)
              && (forall id :: id in a.changedTypes <==>
                    id in a.states && a.states[id].requestedType != a.states[id].validatedType)
              && (forall id <- a.changedTypes :: a.changedTypes[id] == a.states[id].validatedType)
  {
    ReachableInv(a);
  }

  // ---------------------------------------------------------------------------------------------
  // Validation
  // ---------------------------------------------------------------------------------------------

  lemma DeviceIsChoice(a: Adapter, property: bool, choice: LayerId)
    requires Inv(a) && MayChoose(a, property, choice)
    ensures var v := Validate(a, property, choice);
            && v.states.Keys == a.states.Keys
            && (choice != 0 ==> choice in a.states)
            && forall id <- v.states ::
                 v.states[id].validatedType == HWC2_COMPOSITION_DEVICE <==> choice != 0 && id == choice
  {
    ValidateTypes(a, property, choice);
    if choice != 0 {
      ChoiceIsPlaceable(a, property, choice);
    }
  }

  lemma ClearIsBesideOthers(a: Adapter, property: bool, choice: LayerId)
    requires Inv(a) && MayChoose(a, property, choice)
    ensures forall id :: id in Validate(a, property, choice).clearLayers
                         <==> choice != 0 && id == choice && exists jd <- a.states :: jd != id
  {
    DeviceIsChoice(a, property, choice);
    assert Validate(a, property, choice).clearLayers
        == if choice != 0 && HasClient(a.states.Keys, choice) then {choice} else {};
  }

  /** Validation is right for every order of visiting the layers: at most one layer becomes a device
      layer; one does exactly when the overlay is on, unlatched, and some layer is eligible, and then it
      is an eligible one whose frame covers the most pixels; the reported changes are the layers whose requested and
      validated types differ; a clear is requested exactly when an overlay coexists with another layer. */
  lemma ValidationIsRight(a: Adapter, property: bool, choice: LayerId)
    requires Reachable(a) && MayChoose(a, property, choice)
    ensures var v := Validate(a, property, choice);
            && (forall id <- v.states, jd <- v.states ::
                  v.states[id].validatedType == v.states[jd].validatedType == HWC2_COMPOSITION_DEVICE ==> id == jd)
            && ((exists id <- v.states :: v.states[id].validatedType == HWC2_COMPOSITION_DEVICE)
                <==> property && !a.disabledByError && exists id <- a.states :: Eligible(a.info, a.states[id]))
            && (forall id <- v.states :: v.states[id].validatedType == HWC2_COMPOSITION_DEVICE ==>
                  && Eligible(a.info, a.states[id])
                  && forall jd <- a.states :: Eligible(a.info, a.states[jd]) ==>
                       |Pixels(a.states[jd].displayFrame)| <= |Pixels(a.states[id].displayFrame)|)
            && v.overlayEnabled == property && v.disabledByError == (a.disabledByError && property)
            && v.changedTypes == DifferingTypes(v.states)
            && (forall id :: id in v.clearLayers <==>
                  && id in v.states && v.states[id].validatedType == HWC2_COMPOSITION_DEVICE
                  && exists jd <- v.states :: jd != id)
  {
    ReachableInv(a);
    DeviceIsChoice(a, property, choice);
    ValidateTypes(a, property, choice);
    ClearIsBesideOthers(a, property, choice);
    forall id <- a.states
      ensures |Pixels(a.states[id].displayFrame)| == FrameArea(a.states[id].displayFrame)
    {
      AreaIsPixels(a.states[id].displayFrame);
    }
    var v := Validate(a, property, choice);
    if choice != 0 {
      assert v.states[choice].validatedType == HWC2_COMPOSITION_DEVICE;
    }
  }

  lemma SameChoice(a: Adapter, property: bool, choice: LayerId, again: LayerId)
    requires Inv(a) && MayChoose(a, property, choice)
    requires MayChoose(Accept(Validate(a, property, choice)), property, again)
    ensures again == choice
  {
    OnlyChoiceStaysEligible(a, property, choice);
    var accepted := Accept(Validate(a, property, choice));
    assert accepted.states.Keys == a.states.Keys;
    if choice != 0 {
      ChoiceIsPlaceable(a, property, choice);
    }
  }

  lemma AcceptedFields(a: Adapter, property: bool, choice: LayerId)
    ensures var b := Accept(Validate(a, property, choice));
            && b.states.Keys == a.states.Keys
            && b.overlayEnabled == property && b.disabledByError == (a.disabledByError && property)
            && b.hasOverlay == (choice != 0) && b.usesClientTarget == (choice != 0 && HasClient(b.states.Keys, choice))
            && b.clearLayers == (if b.usesClientTarget then {choice} else {})
            && (choice != 0 ==> b.overlayLayer == choice)
            && b.changedTypes == map[]
  {
    assert Accept(Validate(a, property, choice)).states.Keys == a.states.Keys;
  }

  lemma Revalidates(a: Adapter, property: bool, choice: LayerId)
    ensures var accepted := Accept(Validate(a, property, choice));
            var v := Validate(accepted, property, choice);
            && v.changedTypes == map[]
            && v == accepted.(validity := if accepted.clearLayers == {} then Validated else ValidatedWithChanges)
  {
    AcceptedFields(a, property, choice);
    RetypeIsIdempotent(a, property, choice);
    var accepted := Accept(Validate(a, property, choice));
    assert Retype(ForgetValidation(accepted, property), choice) == ForgetValidation(accepted, property);
  }

  /** Negotiation converges in one round: validating again after acceptance, with nothing set in
      between, picks the same overlay layer, reports no changed type, and leaves the adapter as it was
      but for the state, which still reports changes as long as there is a clear request. */
  lemma NegotiationConverges(a: Adapter, property: bool, choice: LayerId, again: LayerId)
    requires Reachable(a) && MayChoose(a, property, choice)
    requires MayChoose(Accept(Validate(a, property, choice)), property, again)
    ensures var accepted := Accept(Validate(a, property, choice));
            var v := Validate(accepted, property, again);
            && again == choice
            && v.changedTypes == map[]
            && v == accepted.(validity := if accepted.clearLayers == {} then Validated else ValidatedWithChanges)
  {
    ReachableInv(a);
    SameChoice(a, property, choice, again);
    Revalidates(a, property, choice);
  }

  /** Assigning the same types to the accepted layers changes nothing. */
  lemma RetypeIsIdempotent(a: Adapter, property: bool, choice: LayerId)
    ensures var accepted := Accept(Validate(a, property, choice));
            && Typed(accepted.states, accepted.states.Keys, choice) == accepted.states
            && Changes(accepted.states, accepted.states.Keys, choice) == map[]
  {
    var accepted := Accept(Validate(a, property, choice));
    forall id <- accepted.states
      ensures accepted.states[id] ==
              a.states[id].(validatedType := ValidatedTypeOf(id, choice), requestedType := ValidatedTypeOf(id, choice))
    {
    }
  }

  lemma OnlyChoiceStaysEligible(a: Adapter, property: bool, choice: LayerId)
    requires Inv(a) && MayChoose(a, property, choice)
    ensures var accepted := Accept(Validate(a, property, choice));
            && accepted.disabledByError == (a.disabledByError && property)
            && forall id <- accepted.states :: Eligible(a.info, accepted.states[id]) <==> choice != 0 && id == choice
  {
    var accepted := Accept(Validate(a, property, choice));
    forall id <- accepted.states
      ensures Eligible(a.info, accepted.states[id]) <==> choice != 0 && id == choice
    {
      var t := ValidatedTypeOf(id, choice);
      assert accepted.states[id] == a.states[id].(validatedType := t, requestedType := t);
      RetypedEligible(a.info, a.states[id], t);
    }
  }

  lemma RetypedEligible(info: Info, l: LayerState, t: int)
    ensures var retyped := l.(validatedType := t, requestedType := t);
            && (Eligible(info, retyped) ==> t == HWC2_COMPOSITION_DEVICE)
            && (t == HWC2_COMPOSITION_DEVICE && Eligible(info, l) ==> Eligible(info, retyped))
  {
  }

  // ---------------------------------------------------------------------------------------------
  // Presenting
  // ---------------------------------------------------------------------------------------------

  predicate Inside(r: DssRect, info: Info) {
    r.x >= 0 && r.y >= 0 && r.w > 0 && r.h > 0 && r.x + r.w <= info.width && r.y + r.h <= info.height
  }

  lemma ToInt32Bound(x: nat)
    ensures ToInt32(x) <= x
  {
  }

  /** An overlay of the video layer, opaque and unblended, in its place, and of the client target above it,
      blended premultiplied over the whole display, exactly when the validation asked for it. */
  ghost predicate SoundShape(a: Adapter, overlay: seq<DssLayer>)
    requires a.overlayLayer in a.states
  {
    var video := a.states[a.overlayLayer];
    && |overlay| == (if a.usesClientTarget then 2 else 1)
    && (forall k :: 0 <= k < |overlay| ==> overlay[k].layerIdx == k && Inside(overlay[k].dstRect, a.info))
    && (forall k :: 0 <= k < |overlay| ==> overlay[k].glbAlpha == 255 && overlay[k].transform == 0)
    && overlay[0].blending == HISI_BLENDING_NONE && overlay[0].chnIdx == DPE0_CHN0
    && overlay[0].dstRect == DssRect(video.displayFrame.left, video.displayFrame.top,
                                     video.displayFrame.right - video.displayFrame.left,
                                     video.displayFrame.bottom - video.displayFrame.top)
    && NearCrop(overlay[0].srcRect, video.sourceCrop)
    && (forall k :: 0 <= k < |overlay| ==>
          && (CapCsc in overlay[k].needCap <==> IsYuvFormat(overlay[k].format))
          && (CapScl in overlay[k].needCap <==>
                overlay[k].srcRect.w != overlay[k].dstRect.w || overlay[k].srcRect.h != overlay[k].dstRect.h))
    && Placeable(a.info, video)
    && (a.usesClientTarget ==>
          && overlay[1].blending == HISI_BLENDING_PREMULT && overlay[1].chnIdx == DPE0_CHN3
          && overlay[1].dstRect == DssRect(0, 0, a.info.width, a.info.height)
          && overlay[1].srcRect == DssRect(0, 0, a.info.width, a.info.height))
  }

  lemma SubmittedShape(a: Adapter, opens: bool, plays: bool)
    requires Reachable(a) && PresentOutcome(a, opens, plays).submitted.Some?
    ensures a.overlayLayer in a.states && SoundShape(a, PresentOutcome(a, opens, plays).submitted.value)
  {
    ReachableInv(a);
    var video := a.states[a.overlayLayer];
    ToInt32Bound(a.info.width);
    ToInt32Bound(a.info.height);
    SourceRectIsNear(video);
    if a.usesClientTarget {
      ClientLayerCoversDisplay(a);
    }
  }

  /** What validation approved still holds at present, even if the layer's buffer was swapped: every
      overlay handed to the hardware has the sound shape, and each of its layers describes the buffer it is
      read from. */
  lemma SubmittedOverlayIsSound(a: Adapter, opens: bool, plays: bool)
    requires Reachable(a) && PresentOutcome(a, opens, plays).submitted.Some?
    ensures var overlay := PresentOutcome(a, opens, plays).submitted.value;
            && a.overlayLayer in a.states && SoundShape(a, overlay)
            && var video := a.states[a.overlayLayer];
            && video.buffer.Some? && Reads(overlay[0], video.buffer.value) && CapDma in overlay[0].needCap
            && (a.usesClientTarget ==>
                  a.buffer.Some? && Reads(overlay[1], a.buffer.value) && CapFbPost in overlay[1].needCap)
  {
    SubmittedShape(a, opens, plays);
    var video := a.states[a.overlayLayer];
    ConversionKeepsLayout(video.buffer.value.format);
    if a.usesClientTarget {
      ConversionKeepsLayout(a.buffer.value.format);
    }
  }

  lemma ClientLayerCoversDisplay(a: Adapter)
    requires ClientLayer(a).Some?
    ensures var layer := ClientLayer(a).value;
            && layer.dstRect == DssRect(0, 0, a.info.width, a.info.height)
            && layer.srcRect == DssRect(0, 0, a.info.width, a.info.height)
            && a.info.width > 0 && a.info.height > 0
            && layer.glbAlpha == 255
  {
    var w, h := a.info.width, a.info.height;
    FloorIs(w as real + 0.5, w);
    FloorIs(h as real + 0.5, h);
    assert ToInt32(w) > 0 && ToInt32(h) > 0;
    assert w as real <= a.buffer.value.width as real;
  }

  /** The near edges and the size of the source rectangle are the crop's to the nearest pixel; its far
      edges are within one pixel of the crop's, and on them when the crop's edges are whole. */
  ghost predicate NearCrop(r: DssRect, c: Crop) {
    && c.left - 0.5 < r.x as real <= c.left + 0.5
    && c.top - 0.5 < r.y as real <= c.top + 0.5
    && (c.right - c.left) - 0.5 < r.w as real <= (c.right - c.left) + 0.5
    && (c.bottom - c.top) - 0.5 < r.h as real <= (c.bottom - c.top) + 0.5
    && c.right - 1.0 <= (r.x + r.w) as real <= c.right + 1.0
    && c.bottom - 1.0 <= (r.y + r.h) as real <= c.bottom + 1.0
    && (IsWhole(c.left) && IsWhole(c.right) ==> (r.x + r.w) as real == c.right)
    && (IsWhole(c.top) && IsWhole(c.bottom) ==> (r.y + r.h) as real == c.bottom)
  }

  lemma SourceRectIsNear(l: LayerState)
    requires VideoLayer(l).Some?
    ensures NearCrop(VideoLayer(l).value.srcRect, l.sourceCrop)
  {
    RoundedExtent(l.sourceCrop.left, l.sourceCrop.right);
    RoundedExtent(l.sourceCrop.top, l.sourceCrop.bottom);
  }

  /** In a submitted overlay the client target's source rectangle lies inside its buffer; the video's
      leaves its buffer exactly when the crop ends at the buffer's edge and starts on a half pixel. */
  lemma SubmittedSourceOverrun(a: Adapter, opens: bool, plays: bool)
    requires Reachable(a) && PresentOutcome(a, opens, plays).submitted.Some?
    ensures var overlay := PresentOutcome(a, opens, plays).submitted.value;
            && a.overlayLayer in a.states && overlay != []
            && var crop := a.states[a.overlayLayer].sourceCrop;
            && var video := overlay[0];
            && (video.srcRect.x + video.srcRect.w > video.width
                <==> crop.right == video.width as real && IsHalf(crop.left))
            && (video.srcRect.y + video.srcRect.h > video.height
                <==> crop.bottom == video.height as real && IsHalf(crop.top))
            && (forall k :: 1 <= k < |overlay| ==>
                  && overlay[k].srcRect.x + overlay[k].srcRect.w <= overlay[k].width
                  && overlay[k].srcRect.y + overlay[k].srcRect.h <= overlay[k].height)
  {
    ReachableInv(a);
    var video := a.states[a.overlayLayer];
    SourceOverrun(video.buffer, video.sourceCrop, video.displayFrame, NoBlend, 1.0, video.transform, 0, DPE0_CHN0,
                  {CapDma});
    if a.usesClientTarget {
      ClientLayerCoversDisplay(a);
    }
  }

  // ---------------------------------------------------------------------------------------------
  // The error latch
  // ---------------------------------------------------------------------------------------------

  /** A present in state Validated either shows the overlay and posts nothing to the framebuffer, or
      posts the client buffer; and it posts with an overlay pending exactly when it latches the error. */
  lemma FailureFallsBack(a: Adapter, opens: bool, plays: bool)
    requires Reachable(a) && a.validity == Validated
    ensures var o := PresentOutcome(a, opens, plays);
            && (o.shown ==> o.adapter == a && o.submitted.Some? && o.posted == None)
            && (!o.shown ==> o.posted == a.buffer)
            && (a.hasOverlay && !o.shown <==> o.adapter == Latch(a) && o.adapter != a)
            && (!a.hasOverlay ==> o.adapter == a && o.submitted == None)
  {
    ReachableInv(a);
  }

  /** Nothing is presented of a display that was not validated, or whose changes were not accepted. */
  lemma PresentNeedsValidation(a: Adapter, opens: bool, plays: bool)
    requires a.validity != Validated
    ensures PresentOutcome(a, opens, plays) == Outcome(a, None, false, None)
  {
  }

  /** The number of overlays handed to the hardware in a run. */
  function Submissions(a: Adapter, calls: seq<Call>): nat
    decreases |calls|
  {
    if calls == [] then 0
    else
      (if calls[0].PresentDisplay? && PresentOutcome(a, calls[0].opens, calls[0].plays).submitted.Some? then 1 else 0)
      + Submissions(Next(a, calls[0]), calls[1..])
  }

  /** Once latched, the adapter hands no overlay to the hardware until a validation has seen the
      property off; it stays latched, and while it counts as validated every layer is a client layer. */
  lemma {:induction false} LatchHolds(a: Adapter, calls: seq<Call>, a': Adapter)
    requires Inv(a) && a.disabledByError && Run(a, calls, a')
    requires forall call <- calls :: call.ValidateDisplay? ==> call.property
    ensures Submissions(a, calls) == 0
    ensures a'.disabledByError && !a'.hasOverlay
    ensures a'.validity != Modified ==>
              forall id <- a'.states :: a'.states[id].validatedType == HWC2_COMPOSITION_CLIENT
    decreases |calls|
  {
    if calls != [] {
      CallKeepsInv(a, calls[0]);
      LatchHolds(Next(a, calls[0]), calls[1..], a');
    }
  }

  /** From a failed overlay on: a present that fails while an overlay is pending leaves the display
      modified and falls back, and nothing but a validation with the property off brings the overlay
      back. */
  lemma FailedOverlayStaysOff(a: Adapter, opens: bool, plays: bool, calls: seq<Call>, a': Adapter)
    requires Reachable(a) && a.validity == Validated && a.hasOverlay
    requires !PresentOutcome(a, opens, plays).shown
    requires Run(PresentOutcome(a, opens, plays).adapter, calls, a')
    requires forall call <- calls :: call.ValidateDisplay? ==> call.property
    ensures PresentOutcome(a, opens, plays).adapter.validity == Modified
    ensures PresentOutcome(a, opens, plays).posted == a.buffer
    ensures Submissions(PresentOutcome(a, opens, plays).adapter, calls) == 0 && !a'.hasOverlay
  {
    ReachableInv(a);
    CallKeepsInv(a, PresentDisplay(opens, plays));
    LatchHolds(PresentOutcome(a, opens, plays).adapter, calls, a');
  }

  /** A validation with the property off releases the latch: the next one with it on brings the overlay
      back exactly if some layer is eligible. */
  lemma PropertyOffReleasesLatch(a: Adapter, choice: LayerId, next: LayerId)
    requires Reachable(a) && MayChoose(a, false, choice)
    requires MayChoose(Validate(a, false, choice), true, next)
    ensures var off := Validate(a, false, choice);
            && !off.disabledByError && !off.hasOverlay
            && (Validate(off, true, next).hasOverlay <==> exists id <- a.states :: Eligible(a.info, a.states[id]))
  {
    OffKeepsEligible(a, choice);
    var off := Validate(a, false, choice);
    assert Validate(off, true, next).hasOverlay == (next != 0);
    assert IsChoice(a.info, off.states, next);
  }

  lemma OffKeepsEligible(a: Adapter, choice: LayerId)
    requires MayChoose(a, false, choice)
    ensures var off := Validate(a, false, choice);
            && off.states.Keys == a.states.Keys && off.info == a.info
            && forall id <- a.states :: Eligible(a.info, off.states[id]) <==> Eligible(a.info, a.states[id])
  {
    var off := Validate(a, false, choice);
    assert off.states.Keys == a.states.Keys;
    forall id <- a.states
      ensures Eligible(a.info, off.states[id]) <==> Eligible(a.info, a.states[id])
    {
      assert off.states[id] == a.states[id].(validatedType := HWC2_COMPOSITION_CLIENT);
    }
  }

  // ---------------------------------------------------------------------------------------------
  // Reaching a given layer
  // ---------------------------------------------------------------------------------------------

  lemma {:induction false} RunAppend(a: Adapter, calls: seq<Call>, a': Adapter, call: Call)
    requires Run(a, calls, a') && Possible(a', call)
    ensures Run(a, calls + [call], Next(a', call))
    decreases |calls|
  {
    if calls == [] {
      assert [call][1..] == [];
    } else {
      RunAppend(Next(a, calls[0]), calls[1..], a', call);
      assert (calls + [call])[1..] == calls[1..] + [call];
    }
  }

  lemma ReachableNext(a: Adapter, call: Call)
    requires Reachable(a) && Possible(a, call)
    ensures Reachable(Next(a, call))
  {
    var a0, calls :| Initial(a0) && Run(a0, calls, a);
    RunAppend(a0, calls, a, call);
  }

  /** The adapter right after layer 1 was created and given the state `l`. */
  function OneLayer(info: Info, l: LayerState): Adapter {
    Adapter(info, 1, {1}, map[1 := l], map[], {}, None, false, false, false, false, 0, Modified)
  }

  /** The same, validated, with the layer as overlay. */
  function LoneOverlay(info: Info, l: LayerState): Adapter {
    OneLayer(info, l).(overlayEnabled := true, hasOverlay := true, overlayLayer := 1, validity := Validated)
  }

  lemma NewLayerIsReachable(info: Info)
    ensures Reachable(OneLayer(info, NEW_LAYER))
  {
    var a0 := Adapter(info, 0, {}, map[], map[], {}, None, false, false, false, false, 0, Modified);
    assert Initial(a0) && Run(a0, [], a0);
    ReachableNext(a0, Create(true));
    assert Next(a0, Create(true)) == OneLayer(info, NEW_LAYER);
  }

  lemma SetOnOneLayer(info: Info, l: LayerState, attribute: Attribute) returns (m: LayerState)
    requires Reachable(OneLayer(info, l))
    ensures m == WithAttribute(l, attribute) && Reachable(OneLayer(info, m))
  {
    m := WithAttribute(l, attribute);
    ReachableNext(OneLayer(info, l), Set(1, attribute));
    assert Next(OneLayer(info, l), Set(1, attribute)) == OneLayer(info, m);
  }

  lemma BufferOnOneLayer(info: Info, l: LayerState, buffer: Option<Buffer>)
    requires Reachable(OneLayer(info, l))
    ensures Reachable(OneLayer(info, l.(buffer := buffer)))
  {
    ReachableNext(OneLayer(info, l), SetLayerBufferTo(1, buffer));
    assert Next(OneLayer(info, l), SetLayerBufferTo(1, buffer)) == OneLayer(info, l.(buffer := buffer));
  }

  lemma OneLayerIsReachable(info: Info, l: LayerState)
    requires l.validatedType == NEW_LAYER.validatedType
    ensures Reachable(OneLayer(info, l))
  {
    NewLayerIsReachable(info);
    var m := SetOnOneLayer(info, NEW_LAYER, CompositionType(l.requestedType));
    m := SetOnOneLayer(info, m, BlendModeIs(l.blendMode));
    m := SetOnOneLayer(info, m, DisplayFrame(l.displayFrame));
    m := SetOnOneLayer(info, m, SourceCrop(l.sourceCrop));
    m := SetOnOneLayer(info, m, PlaneAlpha(l.planeAlpha));
    m := SetOnOneLayer(info, m, Transform(l.transform));
    m := SetOnOneLayer(info, m, ZOrder(l.z));
    BufferOnOneLayer(info, m, l.buffer);
    assert m.(buffer := l.buffer) == l;
  }

  /** Any eligible layer can be the overlay of a validated display, and its present can be shown. */
  lemma LoneOverlayIsReachable(info: Info, l: LayerState)
    requires Eligible(info, l) && l.validatedType == HWC2_COMPOSITION_DEVICE
    ensures Reachable(LoneOverlay(info, l))
    ensures PresentOutcome(LoneOverlay(info, l), true, true).shown
  {
    var m := l.(validatedType := NEW_LAYER.validatedType);
    OneLayerIsReachable(info, m);
    OnlyChoice(info, m);
    ReachableNext(OneLayer(info, m), ValidateDisplay(true, 1));
    ValidatesAlone(info, m);
    assert VideoLayer(l).Some?;
  }

  lemma OnlyChoice(info: Info, l: LayerState)
    requires Eligible(info, l)
    ensures MayChoose(OneLayer(info, l), true, 1)
  {
  }

  lemma ValidatesAlone(info: Info, l: LayerState)
    requires l.requestedType == HWC2_COMPOSITION_DEVICE
    ensures Validate(OneLayer(info, l), true, 1) == LoneOverlay(info, l.(validatedType := HWC2_COMPOSITION_DEVICE))
  {
    var states := map[1 := l];
    assert Typed(states, {1}, 1) == map[1 := l.(validatedType := HWC2_COMPOSITION_DEVICE)];
    assert Changes(states, {1}, 1) == map[];
    assert !HasClient({1}, 1);
  }

  /** A video layer over a 4 by 4 display whose crop starts half a pixel into its 4 by 4 buffer. */
  const HALF_PIXEL_CROP := LayerState(Some(Buffer(true, Yv12, 4, 4, 0)), HWC2_COMPOSITION_DEVICE,
                                      HWC2_COMPOSITION_DEVICE, NoBlend, Rect(0, 0, 4, 4), Crop(0.5, 0.0, 4.0, 4.0),
                                      1.0, 0, 0)

  /** Validation accepts such a layer, and the overlay submitted for it reads five columns of four. */
  lemma HalfPixelCropOverruns() returns (a: Adapter)
    ensures Reachable(a) && PresentOutcome(a, true, true).shown
    ensures var overlay := PresentOutcome(a, true, true).submitted.value;
            |overlay| == 1 && overlay[0].width == 4 && overlay[0].srcRect.x + overlay[0].srcRect.w == 5
  {
    a := LoneOverlay(Info(4, 4), HALF_PIXEL_CROP);
    FloorIs(1.0, 1);
    FloorIs(4.0, 4);
    LoneOverlayIsReachable(Info(4, 4), HALF_PIXEL_CROP);
  }
}
