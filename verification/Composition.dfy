/** Whether the overlay shows the right picture: what the hardware makes of the layers it was handed,
    compared with composing everything in software. The meaning of the clear request and of the blend
    modes is taken from the HWC2 interface. Pictures are functions of the pixel and the colour channel. */
module Composition {
  import opened Common
  import opened OverlayGeometry
  import opened OverlayAdapter
  import opened OverlayRuns
  import opened Blending

  // ---------------------------------------------------------------------------------------------
  // What the hardware shows
  // ---------------------------------------------------------------------------------------------

  datatype Channel = Red | Green | Blue

  /** What a display channel reads from memory, as the submitted layer describes it. */
  datatype Image = Image(channel: int, format: (int, int), width: nat, height: nat, layout: int,
                         src: DssRect, dst: DssRect, transform: int)

  function ReadBy(layer: DssLayer): Image {
    Image(layer.chnIdx, (layer.format, layer.bpp), layer.width, layer.height, layer.layout,
          layer.srcRect, layer.dstRect, layer.transform)
  }

  /** The sample an image has at a screen pixel, before any blending. */
  type Fetch = (Image, int, int, Channel) -> Sample

  /** A layer faded by its global alpha and blended over what is below it. Without blending its own
      alpha is ignored. */
  function Blend(layer: DssLayer, s: Sample, below: real): real {
    var g := layer.glbAlpha as real / 255.0;
    if layer.blending == HISI_BLENDING_PREMULT then Mix(Sample(g * s.color, g * s.alpha), below)
    else if layer.blending == HISI_BLENDING_COVERAGE then Mix(Sample(g * (s.alpha * s.color), g * s.alpha), below)
    else Mix(Sample(g * s.color, g), below)
  }

  /** The layers of an overlay blended over black in the order of their positions, which `layerIdx` repeats
      (SubmittedOverlayIsSound). */
  function Shown(overlay: seq<DssLayer>, fetch: Fetch, x: int, y: int, c: Channel): real {
    if overlay == [] then 0.0
    else
      var n := |overlay| - 1;
      var below := Shown(overlay[..n], fetch, x, y, c);
      if InRect(overlay[n].dstRect, x, y) then Blend(overlay[n], fetch(ReadBy(overlay[n]), x, y, c), below) else below
  }

  // ---------------------------------------------------------------------------------------------
  // Whole pictures
  // ---------------------------------------------------------------------------------------------

  /** What the crop of each layer's buffer, scaled into its frame, has at a screen pixel. */
  type Contents = (LayerId, int, int, Channel) -> Sample

  predicate Covers(r: Rect, x: int, y: int) {
    r.left <= x < r.right && r.top <= y < r.bottom
  }

  /** A buffer's sample as its layer's blend mode reads it: without blending its own alpha is ignored. */
  function Blended(mode: BlendMode, s: Sample): Sample {
    match mode
    case NoBlend => Sample(s.color, 1.0)
    case Premultiplied => s
    case Coverage => Sample(s.alpha * s.color, s.alpha)
  }

  function Scale(p: real, s: Sample): Sample {
    Sample(p * s.color, p * s.alpha)
  }

  /** What software draws of a layer: its content, faded by its plane alpha. */
  function Faded(l: LayerState, s: Sample): Sample {
    Scale(Clamp01(l.planeAlpha), Blended(l.blendMode, s))
  }

  /** What a layer does at a pixel. */
  function CellOf(a: Adapter, id: LayerId, contents: Contents, x: int, y: int, c: Channel): Cell
    requires id in a.states
  {
    var l := a.states[id];
    var s := Faded(l, contents(id, x, y, c));
    if !Covers(l.displayFrame, x, y) then Absent
    else if a.hasOverlay && id == a.overlayLayer then Video(s, id in a.clearLayers)
    else if l.validatedType == HWC2_COMPOSITION_CLIENT then Drawn(s)
    else Lost(s)
  }

  /** `order` lists the adapter's layers from bottom to top. */
  function Column(a: Adapter, order: seq<LayerId>, contents: Contents, x: int, y: int, c: Channel): (r: seq<Cell>)
    requires forall id <- order :: id in a.states
    ensures |r| == |order|
    ensures forall k :: 0 <= k < |order| ==> r[k] == CellOf(a, order[k], contents, x, y, c)
  {
    seq(|order|, k requires 0 <= k < |order| => CellOf(a, order[k], contents, x, y, c))
  }

  /** A sample that the layer's buffer can have: its alpha is 1 if the format has no alpha channel, and no
      colour exceeds it if colours are premultiplied. */
  ghost predicate CanHold(l: LayerState, s: Sample) {
    && 0.0 <= s.color <= 1.0 && 0.0 <= s.alpha <= 1.0
    && (l.blendMode == Premultiplied ==> s.color <= s.alpha)
    && (l.buffer.Some? && !HasAlpha(l.buffer.value.format) ==> s.alpha == 1.0)
  }

  /** A pixel of the display, and what the layers can have there. */
  ghost predicate Proper(a: Adapter, contents: Contents, x: int, y: int, c: Channel) {
    && 0 <= x < a.info.width && 0 <= y < a.info.height
    && forall id <- a.states :: CanHold(a.states[id], contents(id, x, y, c))
  }

  /** The image is a buffer's crop put into a frame as it is. */
  ghost predicate IsImage(image: Image, b: Buffer, crop: Crop, frame: Rect) {
    && Describes(image.format.0, image.format.1, b.format)
    && image.width == b.width && image.height == b.height && image.layout == b.layout
    && IsCrop(image.src, crop)
    && image.dst == DssRect(frame.left, frame.top, frame.right - frame.left, frame.bottom - frame.top)
    && image.transform == 0
  }

  /** The framebuffer channel finds in the client target what the client has composed. */
  ghost predicate FetchesTarget(a: Adapter, order: seq<LayerId>, contents: Contents, fetch: Fetch,
                                x: int, y: int, c: Channel)
    requires forall id <- order :: id in a.states
  {
    a.buffer.Some? ==>
      forall image: Image ::
        && image.channel == DPE0_CHN3
        && IsImage(image, a.buffer.value, Crop(0.0, 0.0, a.info.width as real, a.info.height as real),
                   Rect(0, 0, a.info.width, a.info.height)) ==>
          fetch(image, x, y, c) == Client(Column(a, order, contents, x, y, c))
  }

  /** The video channel finds the overlay layer's content when it reads the layer's buffer, crop and frame.
      When it reads another rectangle of the buffer it finds anything. */
  ghost predicate FetchesVideo(a: Adapter, contents: Contents, fetch: Fetch, x: int, y: int, c: Channel) {
    a.hasOverlay && a.overlayLayer in a.states && a.states[a.overlayLayer].buffer.Some? ==>
      var video := a.states[a.overlayLayer];
      forall image: Image ::
        image.channel == DPE0_CHN0 && IsImage(image, video.buffer.value, video.sourceCrop, video.displayFrame) ==>
          fetch(image, x, y, c) == contents(a.overlayLayer, x, y, c)
  }

  /** What the display shows after a present: the overlay, or the client target as it is. */
  function Displayed(o: Outcome, column: seq<Cell>, fetch: Fetch, x: int, y: int, c: Channel): real {
    if o.shown && o.submitted.Some? then Shown(o.submitted.value, fetch, x, y, c) else Client(column).color
  }

  ghost function Position(order: seq<LayerId>, id: LayerId): (k: nat)
    requires id in order
    ensures k < |order| && order[k] == id
  {
    var k: nat :| k < |order| && order[k] == id;
    k
  }

  lemma VisitsOnce(order: seq<LayerId>, states: map<LayerId, LayerState>, at: nat, k: nat)
    requires Visits(order, states) && at < |order| && k < |order| && order[k] == order[at]
    ensures k == at
  {
  }

  lemma FadedIsValid(l: LayerState, s: Sample)
    requires CanHold(l, s)
    ensures Faded(l, s).Valid()
  {
    if l.blendMode == Coverage {
      var _ := Fraction(s.color, s.alpha);
    }
    ScaledIsValid(Clamp01(l.planeAlpha), Blended(l.blendMode, s));
  }

  lemma ColumnIsValid(a: Adapter, order: seq<LayerId>, contents: Contents, x: int, y: int, c: Channel)
    requires Inv(a) && a.validity != Modified && Visits(order, a.states) && Proper(a, contents, x, y, c)
    ensures ValidColumn(Column(a, order, contents, x, y, c))
  {
    var column := Column(a, order, contents, x, y, c);
    forall k | 0 <= k < |column|
      ensures ValidCell(column[k])
    {
      assert order[k] in order && order[k] in a.states;
      FadedIsValid(a.states[order[k]], contents(order[k], x, y, c));
    }
  }

  /** Every layer but the overlay layer is the client's. */
  lemma ClientCell(a: Adapter, order: seq<LayerId>, contents: Contents, x: int, y: int, c: Channel, at: nat, k: nat)
    requires Inv(a) && a.validity != Modified && Visits(order, a.states)
    requires a.hasOverlay && at < |order| && order[at] == a.overlayLayer && k < |order| && k != at
    ensures order[k] in a.states && order[k] != a.overlayLayer
    ensures var l := a.states[order[k]];
            Column(a, order, contents, x, y, c)[k]
            == if Covers(l.displayFrame, x, y) then Drawn(Faded(l, contents(order[k], x, y, c))) else Absent
  {
    assert order[k] in order && order[k] in a.states;
    if order[k] == order[at] {
      VisitsOnce(order, a.states, at, k);
    }
  }

  /** The shape of a validated display's column around the overlay layer. */
  lemma ColumnShape(a: Adapter, order: seq<LayerId>, contents: Contents, x: int, y: int, c: Channel, at: nat)
    requires Inv(a) && a.validity != Modified && Visits(order, a.states)
    requires a.hasOverlay && at < |order| && order[at] == a.overlayLayer
    ensures var column := Column(a, order, contents, x, y, c);
            && ClientOnly(column[..at]) && ClientOnly(column[at + 1..])
            && (!a.usesClientTarget ==> AllAbsent(column[..at]) && AllAbsent(column[at + 1..]))
  {
    var column := Column(a, order, contents, x, y, c);
    forall k: nat | k < |column| && k != at
      ensures column[k].Drawn? || column[k].Absent?
      ensures !a.usesClientTarget ==> column[k].Absent?
    {
      assert order[k] in order && order[k] in a.states;
      if order[k] == order[at] {
        VisitsOnce(order, a.states, at, k);
      }
    }
  }

  // ---------------------------------------------------------------------------------------------
  // What the submitted layers show
  // ---------------------------------------------------------------------------------------------

  /** A display on which a present goes through: the overlay is shown, or there is none and the client
      target is posted. */
  ghost predicate Presents(a: Adapter, opens: bool, plays: bool) {
    && Reachable(a) && a.validity == Validated
    && (PresentOutcome(a, opens, plays).shown || (!a.hasOverlay && a.buffer.Some?))
  }

  /** The video plane: what the video channel reads where the video is, black elsewhere. */
  function Plane(a: Adapter, fetch: Fetch, x: int, y: int, c: Channel): real
    requires a.overlayLayer in a.states
  {
    var video := a.states[a.overlayLayer];
    if Covers(video.displayFrame, x, y) && VideoLayer(video).Some?
    then fetch(ReadBy(VideoLayer(video).value), x, y, c).color
    else 0.0
  }

  /** With whole crop edges the plane has the overlay layer's colour. */
  lemma PlaneIsVideo(a: Adapter, contents: Contents, fetch: Fetch, x: int, y: int, c: Channel)
    requires a.hasOverlay && a.overlayLayer in a.states && FetchesVideo(a, contents, fetch, x, y, c)
    requires var video := a.states[a.overlayLayer];
             && VideoLayer(video).Some? && video.transform == 0
             && WholeCrop(video.sourceCrop) && Covers(video.displayFrame, x, y)
    ensures Plane(a, fetch, x, y, c) == contents(a.overlayLayer, x, y, c).color
  {
    var video := a.states[a.overlayLayer];
    CropIsKept(video.sourceCrop);
    ConversionKeepsLayout(video.buffer.value.format);
    assert IsImage(ReadBy(VideoLayer(video).value), video.buffer.value, video.sourceCrop, video.displayFrame);
  }

  lemma VideoIsShown(a: Adapter, opens: bool, plays: bool, fetch: Fetch, x: int, y: int, c: Channel)
    requires Reachable(a) && PresentOutcome(a, opens, plays).shown && a.overlayLayer in a.states
    ensures Shown(PresentOutcome(a, opens, plays).submitted.value[..1], fetch, x, y, c) == Plane(a, fetch, x, y, c)
  {
    SubmittedShape(a, opens, plays);
    var overlay := PresentOutcome(a, opens, plays).submitted.value;
    assert overlay[0] == VideoLayer(a.states[a.overlayLayer]).value;
    assert overlay[..1][..0] == [];
  }

  lemma TargetIsFetched(a: Adapter, order: seq<LayerId>, contents: Contents, fetch: Fetch, x: int, y: int, c: Channel)
    requires ClientLayer(a).Some? && Visits(order, a.states) && FetchesTarget(a, order, contents, fetch, x, y, c)
    ensures fetch(ReadBy(ClientLayer(a).value), x, y, c) == Client(Column(a, order, contents, x, y, c))
  {
    WholeImage(a);
  }

  lemma TargetIsBlended(a: Adapter, opens: bool, plays: bool, order: seq<LayerId>, contents: Contents, fetch: Fetch,
                        x: int, y: int, c: Channel)
    requires Presents(a, opens, plays) && PresentOutcome(a, opens, plays).shown && a.usesClientTarget
    requires a.overlayLayer in a.states && Visits(order, a.states)
    requires 0 <= x < a.info.width && 0 <= y < a.info.height && FetchesTarget(a, order, contents, fetch, x, y, c)
    ensures Shown(PresentOutcome(a, opens, plays).submitted.value, fetch, x, y, c)
         == Mix(Client(Column(a, order, contents, x, y, c)), Plane(a, fetch, x, y, c))
  {
    SubmittedShape(a, opens, plays);
    VideoIsShown(a, opens, plays, fetch, x, y, c);
    var overlay := PresentOutcome(a, opens, plays).submitted.value;
    assert overlay[1] == ClientLayer(a).value;
    TargetIsFetched(a, order, contents, fetch, x, y, c);
    TargetOnTop(overlay, fetch, x, y, c, Client(Column(a, order, contents, x, y, c)));
  }

  lemma TargetOnTop(overlay: seq<DssLayer>, fetch: Fetch, x: int, y: int, c: Channel, target: Sample)
    requires |overlay| == 2 && InRect(overlay[1].dstRect, x, y) && fetch(ReadBy(overlay[1]), x, y, c) == target
    requires overlay[1].blending == HISI_BLENDING_PREMULT && overlay[1].glbAlpha == 255
    ensures Shown(overlay, fetch, x, y, c) == Mix(target, Shown(overlay[..1], fetch, x, y, c))
  {
    assert overlay[..2] == overlay;
  }

  lemma WholeImage(a: Adapter)
    requires ClientLayer(a).Some?
    ensures a.buffer.Some?
    ensures IsImage(ReadBy(ClientLayer(a).value), a.buffer.value,
                    Crop(0.0, 0.0, a.info.width as real, a.info.height as real),
                    Rect(0, 0, a.info.width, a.info.height))
  {
    ClientLayerCoversDisplay(a);
    ConversionKeepsLayout(a.buffer.value.format);
  }

  lemma VideoIsAlone(a: Adapter, opens: bool, plays: bool)
    requires Presents(a, opens, plays) && PresentOutcome(a, opens, plays).shown && !a.usesClientTarget
    ensures var overlay := PresentOutcome(a, opens, plays).submitted.value;
            overlay[..1] == overlay
  {
    SubmittedShape(a, opens, plays);
  }

  lemma BlendNothing(plane: real)
    ensures Mix(TRANSPARENT, plane) == plane
  {
  }

  /** The overlay at a pixel, whatever its layers hold and whatever rectangle is read: the client target
      blended over the video plane. Without a client target the client has drawn nothing. */
  lemma OverlayIsShown(a: Adapter, opens: bool, plays: bool, order: seq<LayerId>, contents: Contents, fetch: Fetch,
                       x: int, y: int, c: Channel)
    requires Presents(a, opens, plays) && PresentOutcome(a, opens, plays).shown && Visits(order, a.states)
    requires 0 <= x < a.info.width && 0 <= y < a.info.height && FetchesTarget(a, order, contents, fetch, x, y, c)
    ensures a.overlayLayer in a.states
    ensures Shown(PresentOutcome(a, opens, plays).submitted.value, fetch, x, y, c)
         == Mix(Client(Column(a, order, contents, x, y, c)), Plane(a, fetch, x, y, c))
  {
    ReachableInv(a);
    if a.usesClientTarget {
      TargetIsBlended(a, opens, plays, order, contents, fetch, x, y, c);
    } else {
      VideoIsShown(a, opens, plays, fetch, x, y, c);
      VideoIsAlone(a, opens, plays);
      NothingDrawn(a, order, contents, x, y, c);
      BlendNothing(Plane(a, fetch, x, y, c));
    }
  }

  lemma NothingDrawn(a: Adapter, order: seq<LayerId>, contents: Contents, x: int, y: int, c: Channel)
    requires Inv(a) && a.validity != Modified && Visits(order, a.states)
    requires a.hasOverlay && !a.usesClientTarget
    ensures Client(Column(a, order, contents, x, y, c)) == TRANSPARENT
  {
    var column := Column(a, order, contents, x, y, c);
    var at := Position(order, a.overlayLayer);
    ColumnShape(a, order, contents, x, y, c, at);
    NothingThere(column[..at]);
    NothingAbove(column, at);
    assert column[..at + 1][..at] == column[..at];
    assert column[at].Absent? || (column[at].Video? && !column[at].erases);
  }

  lemma {:induction false} NothingAbove(column: seq<Cell>, at: nat)
    requires at < |column| && AllAbsent(column[at + 1..])
    ensures Client(column) == Client(column[..at + 1])
  {
    var n := |column| - 1;
    if at < n {
      assert column[n] in column[at + 1..];
      assert column[..n][at + 1..] <= column[at + 1..] && column[..n][..at + 1] == column[..at + 1];
      NothingAbove(column[..n], at);
    } else {
      assert column[..n + 1] == column;
    }
  }

  // ---------------------------------------------------------------------------------------------
  // The picture
  // ---------------------------------------------------------------------------------------------

  /** What a present shows less the software picture, exactly and for all contents: nothing where there is
      no overlay; and in the overlay's frame the gap of what the video channel reads there. */
  lemma OverlayPreservesPicture(a: Adapter, opens: bool, plays: bool, order: seq<LayerId>, contents: Contents,
                                fetch: Fetch, x: int, y: int, c: Channel)
    requires Presents(a, opens, plays) && Visits(order, a.states)
    requires 0 <= x < a.info.width && 0 <= y < a.info.height && FetchesTarget(a, order, contents, fetch, x, y, c)
    ensures a.hasOverlay ==> a.overlayLayer in order
    ensures var column := Column(a, order, contents, x, y, c);
            Displayed(PresentOutcome(a, opens, plays), column, fetch, x, y, c) - Software(column) ==
            if a.hasOverlay && Covers(a.states[a.overlayLayer].displayFrame, x, y)
            then Gap(column, Position(order, a.overlayLayer), Plane(a, fetch, x, y, c))
            else 0.0
  {
    ReachableInv(a);
    var column := Column(a, order, contents, x, y, c);
    if a.hasOverlay {
      OverlayIsShown(a, opens, plays, order, contents, fetch, x, y, c);
      var at := Position(order, a.overlayLayer);
      ColumnShape(a, order, contents, x, y, c, at);
      if column[at].Video? {
        VideoCell(a, order, contents, x, y, c, at);
        PunchedPixel(column, at, Plane(a, fetch, x, y, c));
      } else {
        AbsentVideo(column, at);
        ClientIsSoftware(column);
      }
    } else {
      NoVideo(a, order, contents, x, y, c);
      ClientIsSoftware(column);
    }
  }

  lemma VideoCell(a: Adapter, order: seq<LayerId>, contents: Contents, x: int, y: int, c: Channel, at: nat)
    requires Inv(a) && a.validity != Modified && Visits(order, a.states)
    requires a.hasOverlay && at < |order| && order[at] == a.overlayLayer
    requires Covers(a.states[a.overlayLayer].displayFrame, x, y)
    ensures var column := Column(a, order, contents, x, y, c);
            && column[at].Video?
            && column[at].sample == Faded(a.states[a.overlayLayer], contents(a.overlayLayer, x, y, c))
            && (column[at].erases || Client(column[..at]) == TRANSPARENT)
  {
    var column := Column(a, order, contents, x, y, c);
    if !a.usesClientTarget {
      ColumnShape(a, order, contents, x, y, c, at);
      NothingThere(column[..at]);
    }
  }

  lemma AbsentVideo(column: seq<Cell>, at: nat)
    requires at < |column| && column[at].Absent? && ClientOnly(column[..at]) && ClientOnly(column[at + 1..])
    ensures ClientOnly(column)
  {
    assert column == column[..at] + [column[at]] + column[at + 1..];
  }

  lemma NoVideo(a: Adapter, order: seq<LayerId>, contents: Contents, x: int, y: int, c: Channel)
    requires Inv(a) && a.validity != Modified && Visits(order, a.states) && !a.hasOverlay
    ensures ClientOnly(Column(a, order, contents, x, y, c))
  {
    var column := Column(a, order, contents, x, y, c);
    forall k | 0 <= k < |column|
      ensures column[k].Drawn? || column[k].Absent?
    {
      assert order[k] in order && order[k] in a.states;
    }
  }

  /** When a present shows exactly the software picture at a pixel: outside the overlay's frame; and inside
      it exactly if the client layers above hide it completely, or the video channel reads the colour that
      software makes of the overlay layer and what is below it. */
  lemma ExactAtPixel(a: Adapter, opens: bool, plays: bool, order: seq<LayerId>, contents: Contents,
                     fetch: Fetch, x: int, y: int, c: Channel)
    requires Presents(a, opens, plays) && Visits(order, a.states)
    requires 0 <= x < a.info.width && 0 <= y < a.info.height && FetchesTarget(a, order, contents, fetch, x, y, c)
    ensures a.hasOverlay ==> a.overlayLayer in order
    ensures var column := Column(a, order, contents, x, y, c);
            Displayed(PresentOutcome(a, opens, plays), column, fetch, x, y, c) == Software(column)
            <==> || !a.hasOverlay || !Covers(a.states[a.overlayLayer].displayFrame, x, y)
                 || var at, id := Position(order, a.overlayLayer), a.overlayLayer;
                    || Through(column[at + 1..]) == 0.0
                    || Plane(a, fetch, x, y, c)
                       == Mix(Faded(a.states[id], contents(id, x, y, c)), Software(column[..at]))
  {
    ReachableInv(a);
    OverlayPreservesPicture(a, opens, plays, order, contents, fetch, x, y, c);
    if a.hasOverlay && Covers(a.states[a.overlayLayer].displayFrame, x, y) {
      var column, at := Column(a, order, contents, x, y, c), Position(order, a.overlayLayer);
      VideoCell(a, order, contents, x, y, c, at);
      UpToVideo(column, at);
      NoGap(column, at, Plane(a, fetch, x, y, c));
    }
  }

  /** What showing a layer's colour as it is misses of drawing the layer over what is below it. */
  lemma MissedByVideo(l: LayerState, s: Sample, below: real)
    ensures var p := Clamp01(l.planeAlpha);
            s.color - Mix(Faded(l, s), below) ==
            match l.blendMode
            case NoBlend => (1.0 - p) * (s.color - below)
            case Premultiplied => (1.0 - p) * s.color - (1.0 - p * s.alpha) * below
            case Coverage => (1.0 - p * s.alpha) * (s.color - below)
  {
  }

  /** All of the layer's pixels are opaque, whatever its buffer holds. */
  predicate Opaque(l: LayerState) {
    l.blendMode == NoBlend || (l.buffer.Some? && !HasAlpha(l.buffer.value.format))
  }

  lemma OpaqueIsFaded(l: LayerState, s: Sample)
    requires Opaque(l) && CanHold(l, s)
    ensures Faded(l, s) == Sample(Clamp01(l.planeAlpha) * s.color, Clamp01(l.planeAlpha))
  {
    assert Blended(l.blendMode, s) == Sample(s.color, 1.0);
  }

  lemma OpaqueVideoCell(a: Adapter, order: seq<LayerId>, contents: Contents, x: int, y: int, c: Channel)
    requires Inv(a) && a.validity != Modified && Visits(order, a.states) && Proper(a, contents, x, y, c)
    requires a.hasOverlay && a.overlayLayer in order && Opaque(a.states[a.overlayLayer])
    requires Covers(a.states[a.overlayLayer].displayFrame, x, y)
    ensures var p, color := Clamp01(a.states[a.overlayLayer].planeAlpha), contents(a.overlayLayer, x, y, c).color;
            var cell := Column(a, order, contents, x, y, c)[Position(order, a.overlayLayer)];
            && cell.Video? && cell.sample == Sample(p * color, p)
            && 0.0 <= color <= 1.0 && 0.999 <= p <= 1.0
  {
    VideoCell(a, order, contents, x, y, c, Position(order, a.overlayLayer));
    OpaqueIsFaded(a.states[a.overlayLayer], contents(a.overlayLayer, x, y, c));
  }

  lemma OpaqueVideoGap(a: Adapter, order: seq<LayerId>, contents: Contents, x: int, y: int, c: Channel)
    requires Inv(a) && a.validity != Modified && Visits(order, a.states) && Proper(a, contents, x, y, c)
    requires a.hasOverlay && a.overlayLayer in order && Opaque(a.states[a.overlayLayer])
    requires Covers(a.states[a.overlayLayer].displayFrame, x, y)
    ensures var color := contents(a.overlayLayer, x, y, c).color;
            -0.001 <= Gap(Column(a, order, contents, x, y, c), Position(order, a.overlayLayer), color) <= 0.001
  {
    OpaqueVideoCell(a, order, contents, x, y, c);
    ColumnIsValid(a, order, contents, x, y, c);
    GapIsSmall(Column(a, order, contents, x, y, c), Position(order, a.overlayLayer),
               contents(a.overlayLayer, x, y, c).color, Clamp01(a.states[a.overlayLayer].planeAlpha));
  }

  /** For an opaque overlay layer with whole crop edges the display is within a thousandth of the software
      picture, at every pixel and whatever was called before. */
  lemma OpaqueIsClose(a: Adapter, opens: bool, plays: bool, order: seq<LayerId>, contents: Contents,
                      fetch: Fetch, x: int, y: int, c: Channel)
    requires Presents(a, opens, plays) && Visits(order, a.states) && Proper(a, contents, x, y, c)
    requires FetchesTarget(a, order, contents, fetch, x, y, c) && FetchesVideo(a, contents, fetch, x, y, c)
    requires a.hasOverlay ==> a.overlayLayer in a.states && Opaque(a.states[a.overlayLayer])
                              && WholeCrop(a.states[a.overlayLayer].sourceCrop)
    ensures var column := Column(a, order, contents, x, y, c);
            -0.001 <= Displayed(PresentOutcome(a, opens, plays), column, fetch, x, y, c) - Software(column) <= 0.001
  {
    ReachableInv(a);
    OverlayPreservesPicture(a, opens, plays, order, contents, fetch, x, y, c);
    if a.hasOverlay && Covers(a.states[a.overlayLayer].displayFrame, x, y) {
      PlaneIsVideo(a, contents, fetch, x, y, c);
      OpaqueVideoGap(a, order, contents, x, y, c);
    }
  }

  /** The present in which an overlay fails posts a client target with the overlay's place still cleared:
      it shows no video, which is exactly the gap of a black plane. */
  lemma FallbackShowsHole(a: Adapter, opens: bool, plays: bool, order: seq<LayerId>, contents: Contents, fetch: Fetch,
                          x: int, y: int, c: Channel)
    requires Reachable(a) && a.validity == Validated && a.hasOverlay && !PresentOutcome(a, opens, plays).shown
    requires a.usesClientTarget && a.buffer.Some? && Visits(order, a.states) && a.overlayLayer in order
    requires Covers(a.states[a.overlayLayer].displayFrame, x, y)
    ensures PresentOutcome(a, opens, plays).posted == a.buffer
    ensures var column := Column(a, order, contents, x, y, c);
            Displayed(PresentOutcome(a, opens, plays), column, fetch, x, y, c) - Software(column)
            == Gap(column, Position(order, a.overlayLayer), 0.0)
  {
    ReachableInv(a);
    var column, at := Column(a, order, contents, x, y, c), Position(order, a.overlayLayer);
    ColumnShape(a, order, contents, x, y, c, at);
    VideoCell(a, order, contents, x, y, c, at);
    PunchedPixel(column, at, 0.0);
  }
}
