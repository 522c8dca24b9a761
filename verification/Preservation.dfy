/** When the overlay preserves the picture, exactly, and displays that are reached and do not. */
module Preservation {
  import opened Common
  import opened OverlayGeometry
  import opened OverlayAdapter
  import opened OverlayRuns
  import opened Blending
  import opened Composition

  // ---------------------------------------------------------------------------------------------
  // The condition
  // ---------------------------------------------------------------------------------------------

  /** The layer covers the pixel and lets nothing through, whatever its buffer holds. */
  predicate Hides(l: LayerState, x: int, y: int) {
    Covers(l.displayFrame, x, y) && l.planeAlpha >= 1.0 && Opaque(l)
  }

  predicate HiddenAt(a: Adapter, order: seq<LayerId>, at: nat, x: int, y: int)
    requires forall id <- order :: id in a.states
  {
    exists k :: at < k < |order| && Hides(a.states[order[k]], x, y)
  }

  predicate NothingBelow(a: Adapter, order: seq<LayerId>, at: nat, x: int, y: int)
    requires at < |order| && forall id <- order :: id in a.states
  {
    forall k :: 0 <= k < at ==>
      !Covers(a.states[order[k]].displayFrame, x, y) || a.states[order[k]].planeAlpha <= 0.0
  }

  /** At a pixel of its frame the overlay layer looks as software draws it: it is not faded, its buffer is
      read at its crop, and it is opaque, or premultiplied with nothing below it. */
  predicate LooksRight(a: Adapter, order: seq<LayerId>, at: nat, x: int, y: int)
    requires at < |order| && forall id <- order :: id in a.states
  {
    var video := a.states[order[at]];
    && video.planeAlpha >= 1.0 && WholeCrop(video.sourceCrop)
    && (Opaque(video) || (video.blendMode == Premultiplied && NothingBelow(a, order, at, x, y)))
  }

  ghost predicate PreservedAt(a: Adapter, order: seq<LayerId>, x: int, y: int)
    requires Visits(order, a.states) && (a.hasOverlay ==> a.overlayLayer in order)
  {
    a.hasOverlay && Covers(a.states[a.overlayLayer].displayFrame, x, y) ==>
      var at := Position(order, a.overlayLayer);
      HiddenAt(a, order, at, x, y) || LooksRight(a, order, at, x, y)
  }

  /** What is assumed of the layers' contents and of what the hardware reads at a pixel. */
  ghost predicate Scenario(a: Adapter, order: seq<LayerId>, contents: Contents, fetch: Fetch,
                           x: int, y: int, c: Channel)
    requires forall id <- order :: id in a.states
  {
    && Proper(a, contents, x, y, c)
    && FetchesTarget(a, order, contents, fetch, x, y, c) && FetchesVideo(a, contents, fetch, x, y, c)
  }

  /** The display has the colour of software composition. */
  predicate Matches(a: Adapter, opens: bool, plays: bool, order: seq<LayerId>, contents: Contents, fetch: Fetch,
                    x: int, y: int, c: Channel)
    requires forall id <- order :: id in a.states
  {
    var column := Column(a, order, contents, x, y, c);
    Displayed(PresentOutcome(a, opens, plays), column, fetch, x, y, c) == Software(column)
  }

  // ---------------------------------------------------------------------------------------------
  // The condition suffices
  // ---------------------------------------------------------------------------------------------

  lemma HidingIsOpaque(l: LayerState, s: Sample, x: int, y: int)
    requires Hides(l, x, y) && CanHold(l, s)
    ensures Faded(l, s).alpha == 1.0
  {
    OpaqueIsFaded(l, s);
  }

  lemma HidingCell(a: Adapter, order: seq<LayerId>, contents: Contents, x: int, y: int, c: Channel, at: nat, k: nat)
    requires Inv(a) && a.validity != Modified && Visits(order, a.states) && Proper(a, contents, x, y, c)
    requires a.hasOverlay && at < k < |order| && order[at] == a.overlayLayer && Hides(a.states[order[k]], x, y)
    ensures var cell := Column(a, order, contents, x, y, c)[k];
            cell.Drawn? && cell.sample.alpha == 1.0
  {
    ClientCell(a, order, contents, x, y, c, at, k);
    HidingIsOpaque(a.states[order[k]], contents(order[k], x, y, c), x, y);
  }

  lemma HiddenLayer(a: Adapter, order: seq<LayerId>, contents: Contents, x: int, y: int, c: Channel, at: nat)
    requires Inv(a) && a.validity != Modified && Visits(order, a.states) && Proper(a, contents, x, y, c)
    requires a.hasOverlay && at < |order| && order[at] == a.overlayLayer && HiddenAt(a, order, at, x, y)
    ensures Through(Column(a, order, contents, x, y, c)[at + 1..]) == 0.0
  {
    var k :| at < k < |order| && Hides(a.states[order[k]], x, y);
    HidingCell(a, order, contents, x, y, c, at, k);
    HiddenAbove(Column(a, order, contents, x, y, c), at, k);
  }

  lemma InvisibleIsDark(l: LayerState, s: Sample)
    requires l.planeAlpha <= 0.0
    ensures Faded(l, s) == TRANSPARENT
  {
  }

  lemma DarkUnderneath(a: Adapter, order: seq<LayerId>, contents: Contents, x: int, y: int, c: Channel, at: nat)
    requires Inv(a) && a.validity != Modified && Visits(order, a.states)
    requires a.hasOverlay && at < |order| && order[at] == a.overlayLayer && NothingBelow(a, order, at, x, y)
    ensures Software(Column(a, order, contents, x, y, c)[..at]) == 0.0
  {
    var column := Column(a, order, contents, x, y, c);
    forall k: nat | k < at
      ensures column[k].Absent? || (column[k].Drawn? && column[k].sample.color == 0.0)
    {
      ClientCell(a, order, contents, x, y, c, at, k);
      if Covers(a.states[order[k]].displayFrame, x, y) {
        InvisibleIsDark(a.states[order[k]], contents(order[k], x, y, c));
      }
    }
    DarkBelow(column, at);
  }

  lemma UnfadedPremultiplied(l: LayerState, s: Sample)
    requires l.planeAlpha >= 1.0 && l.blendMode == Premultiplied
    ensures Mix(Faded(l, s), 0.0) == s.color
  {
  }

  lemma UnfadedOpaque(l: LayerState, s: Sample, below: real)
    requires l.planeAlpha >= 1.0 && Opaque(l) && CanHold(l, s)
    ensures Mix(Faded(l, s), below) == s.color
  {
    OpaqueIsFaded(l, s);
  }

  lemma ConditionSuffices(a: Adapter, opens: bool, plays: bool, order: seq<LayerId>, contents: Contents, fetch: Fetch,
                          x: int, y: int, c: Channel)
    requires Presents(a, opens, plays) && Visits(order, a.states) && (a.hasOverlay ==> a.overlayLayer in order)
    requires Scenario(a, order, contents, fetch, x, y, c) && PreservedAt(a, order, x, y)
    ensures Matches(a, opens, plays, order, contents, fetch, x, y, c)
  {
    ReachableInv(a);
    ExactAtPixel(a, opens, plays, order, contents, fetch, x, y, c);
    if a.hasOverlay && Covers(a.states[a.overlayLayer].displayFrame, x, y) {
      var at, video, s := Position(order, a.overlayLayer), a.states[a.overlayLayer], contents(a.overlayLayer, x, y, c);
      if HiddenAt(a, order, at, x, y) {
        HiddenLayer(a, order, contents, x, y, c, at);
      } else {
        PlaneIsVideo(a, contents, fetch, x, y, c);
        if Opaque(video) {
          UnfadedOpaque(video, s, Software(Column(a, order, contents, x, y, c)[..at]));
        } else {
          DarkUnderneath(a, order, contents, x, y, c, at);
          UnfadedPremultiplied(video, s);
        }
      }
    }
  }

  // ---------------------------------------------------------------------------------------------
  // The condition is needed
  // ---------------------------------------------------------------------------------------------

  /** The least a layer's buffer can show. */
  function Clear(l: LayerState): Sample {
    Sample(0.0, if l.buffer.Some? && !HasAlpha(l.buffer.value.format) then 1.0 else 0.0)
  }

  /** A video sample over layers of one colour, with as little above it as the layers allow. */
  function Scene(a: Adapter, below: seq<LayerId>, video: Sample, ground: real): Contents {
    (id, x, y, c) =>
      if id == a.overlayLayer then video
      else if id in below then Sample(ground, 1.0)
      else if id in a.states then Clear(a.states[id])
      else TRANSPARENT
  }

  /** A memory in which the framebuffer channel finds what the client composed, and the other channels one
      sample. */
  function Memory(a: Adapter, order: seq<LayerId>, contents: Contents, video: Sample): Fetch {
    (image: Image, x, y, c) =>
      if image.channel != DPE0_CHN0 && forall id <- order :: id in a.states
      then Client(Column(a, order, contents, x, y, c))
      else video
  }

  lemma ClearIsThin(l: LayerState)
    requires !(l.planeAlpha >= 1.0 && Opaque(l))
    ensures 0.0 <= Faded(l, Clear(l)).alpha < 1.0
  {
  }

  lemma SceneLetsThrough(a: Adapter, order: seq<LayerId>, video: Sample, ground: real,
                         x: int, y: int, c: Channel, at: nat)
    requires Inv(a) && a.validity != Modified && Visits(order, a.states)
    requires a.hasOverlay && at < |order| && order[at] == a.overlayLayer && !HiddenAt(a, order, at, x, y)
    ensures 0.0 < Through(Column(a, order, Scene(a, order[..at], video, ground), x, y, c)[at + 1..])
  {
    var column := Column(a, order, Scene(a, order[..at], video, ground), x, y, c);
    forall k | at < k < |column|
      ensures column[k].Absent? || (column[k].Drawn? && 0.0 <= column[k].sample.alpha < 1.0)
    {
      ClientCell(a, order, Scene(a, order[..at], video, ground), x, y, c, at, k);
      assert order[k] !in order[..at];
      if Covers(a.states[order[k]].displayFrame, x, y) {
        ClearIsThin(a.states[order[k]]);
      }
    }
    LetThroughAbove(column, at);
  }

  lemma SceneBelow(a: Adapter, below: seq<LayerId>, video: Sample, ground: real,
                   id: LayerId, x: int, y: int, c: Channel)
    requires id in below && id != a.overlayLayer
    ensures Scene(a, below, video, ground)(id, x, y, c) == Sample(ground, 1.0)
  {
  }

  lemma GroundCell(a: Adapter, order: seq<LayerId>, video: Sample, ground: real,
                   x: int, y: int, c: Channel, at: nat, k: nat)
    requires Inv(a) && a.validity != Modified && Visits(order, a.states)
    requires a.hasOverlay && at < |order| && order[at] == a.overlayLayer && k < at
    ensures order[k] in a.states
    ensures var l := a.states[order[k]];
            Column(a, order, Scene(a, order[..at], video, ground), x, y, c)[k]
            == if Covers(l.displayFrame, x, y) then Drawn(Faded(l, Sample(ground, 1.0))) else Absent
  {
    ClientCell(a, order, Scene(a, order[..at], video, ground), x, y, c, at, k);
    assert order[..at][k] == order[k];
    SceneBelow(a, order[..at], video, ground, order[k], x, y, c);
  }

  lemma BlackIsDark(l: LayerState)
    ensures Faded(l, Sample(0.0, 1.0)).color == 0.0
  {
  }

  lemma WhiteIsBright(l: LayerState)
    ensures var s := Faded(l, Sample(1.0, 1.0));
            s.color == s.alpha == Clamp01(l.planeAlpha)
  {
  }

  lemma BlackGround(a: Adapter, order: seq<LayerId>, video: Sample, x: int, y: int, c: Channel, at: nat)
    requires Inv(a) && a.validity != Modified && Visits(order, a.states)
    requires a.hasOverlay && at < |order| && order[at] == a.overlayLayer
    ensures Software(Column(a, order, Scene(a, order[..at], video, 0.0), x, y, c)[..at]) == 0.0
  {
    var column := Column(a, order, Scene(a, order[..at], video, 0.0), x, y, c);
    forall k: nat | k < at
      ensures column[k].Absent? || (column[k].Drawn? && column[k].sample.color == 0.0)
    {
      GroundCell(a, order, video, 0.0, x, y, c, at, k);
      BlackIsDark(a.states[order[k]]);
    }
    DarkBelow(column, at);
  }

  lemma WhiteGroundCell(a: Adapter, order: seq<LayerId>, video: Sample, x: int, y: int, c: Channel, at: nat, k: nat)
    requires Inv(a) && a.validity != Modified && Visits(order, a.states)
    requires a.hasOverlay && at < |order| && order[at] == a.overlayLayer && k < at
    ensures order[k] in a.states
    ensures var l := a.states[order[k]];
            var cell := Column(a, order, Scene(a, order[..at], video, 1.0), x, y, c)[k];
            && WhiteCell(cell)
            && (Covers(l.displayFrame, x, y) && l.planeAlpha > 0.0 ==> cell.Drawn? && 0.0 < cell.sample.color)
  {
    GroundCell(a, order, video, 1.0, x, y, c, at, k);
    WhiteIsBright(a.states[order[k]]);
  }

  lemma WhiteGround(a: Adapter, order: seq<LayerId>, video: Sample, x: int, y: int, c: Channel, at: nat)
    requires Inv(a) && a.validity != Modified && Visits(order, a.states)
    requires a.hasOverlay && at < |order| && order[at] == a.overlayLayer && !NothingBelow(a, order, at, x, y)
    ensures 0.0 < Software(Column(a, order, Scene(a, order[..at], video, 1.0), x, y, c)[..at])
  {
    var column := Column(a, order, Scene(a, order[..at], video, 1.0), x, y, c);
    forall k: nat | k < at
      ensures WhiteCell(column[k])
    {
      WhiteGroundCell(a, order, video, x, y, c, at, k);
    }
    var k: nat :| k < at && Covers(a.states[order[k]].displayFrame, x, y) && a.states[order[k]].planeAlpha > 0.0;
    WhiteGroundCell(a, order, video, x, y, c, at, k);
    BrightBelow(column, at, k);
  }

  lemma SceneIsProper(a: Adapter, below: seq<LayerId>, video: Sample, ground: real, x: int, y: int, c: Channel)
    requires a.overlayLayer in a.states && CanHold(a.states[a.overlayLayer], video) && 0.0 <= ground <= 1.0
    requires 0 <= x < a.info.width && 0 <= y < a.info.height
    ensures Proper(a, Scene(a, below, video, ground), x, y, c)
  {
  }

  lemma MemoryFetches(a: Adapter, order: seq<LayerId>, contents: Contents, read: Sample, x: int, y: int, c: Channel)
    requires Visits(order, a.states) && a.overlayLayer in a.states
    requires WholeCrop(a.states[a.overlayLayer].sourceCrop) ==> read == contents(a.overlayLayer, x, y, c)
    ensures FetchesTarget(a, order, contents, Memory(a, order, contents, read), x, y, c)
    ensures FetchesVideo(a, contents, Memory(a, order, contents, read), x, y, c)
  {
  }

  lemma MemoryPlane(a: Adapter, opens: bool, plays: bool, order: seq<LayerId>, contents: Contents, read: Sample,
                    x: int, y: int, c: Channel)
    requires Reachable(a) && PresentOutcome(a, opens, plays).shown
    requires a.overlayLayer in a.states && Covers(a.states[a.overlayLayer].displayFrame, x, y)
    ensures Plane(a, Memory(a, order, contents, read), x, y, c) == read.color
  {
  }

  /** A scene in which the overlay shows a colour other than software composition. */
  lemma SceneDiffers(a: Adapter, opens: bool, plays: bool, order: seq<LayerId>, video: Sample, ground: real,
                     read: Sample, x: int, y: int, c: Channel)
    requires Presents(a, opens, plays) && Visits(order, a.states) && a.hasOverlay && a.overlayLayer in order
    requires 0 <= x < a.info.width && 0 <= y < a.info.height && 0.0 <= ground <= 1.0
    requires var l, at := a.states[a.overlayLayer], Position(order, a.overlayLayer);
             && Covers(l.displayFrame, x, y) && !HiddenAt(a, order, at, x, y)
             && CanHold(l, video) && (WholeCrop(l.sourceCrop) ==> read == video)
             && var column := Column(a, order, Scene(a, order[..at], video, ground), x, y, c);
                read.color != Mix(Faded(l, video), Software(column[..at]))
    ensures var contents := Scene(a, order[..Position(order, a.overlayLayer)], video, ground);
            var fetch := Memory(a, order, contents, read);
            && Scenario(a, order, contents, fetch, x, y, c)
            && !Matches(a, opens, plays, order, contents, fetch, x, y, c)
  {
    ReachableInv(a);
    var at := Position(order, a.overlayLayer);
    var contents := Scene(a, order[..at], video, ground);
    var fetch := Memory(a, order, contents, read);
    SceneIsProper(a, order[..at], video, ground, x, y, c);
    MemoryFetches(a, order, contents, read, x, y, c);
    SceneLetsThrough(a, order, video, ground, x, y, c, at);
    ExactAtPixel(a, opens, plays, order, contents, fetch, x, y, c);
    MemoryPlane(a, opens, plays, order, contents, read, x, y, c);
  }

  lemma FadedWhite(l: LayerState)
    requires 0.0 <= l.planeAlpha < 1.0
    ensures Mix(Faded(l, Sample(1.0, 1.0)), 0.0) == l.planeAlpha
  {
    WhiteIsBright(l);
  }

  lemma NothingCovered(l: LayerState, color: real, below: real)
    requires l.blendMode == Coverage || (l.blendMode == Premultiplied && color == 0.0)
    ensures Mix(Faded(l, Sample(color, 0.0)), below) == below
  {
    assert Faded(l, Sample(color, 0.0)) == TRANSPARENT;
  }

  lemma ConditionIsNeeded(a: Adapter, opens: bool, plays: bool, order: seq<LayerId>, x: int, y: int, c: Channel)
    returns (contents: Contents, fetch: Fetch)
    requires Presents(a, opens, plays) && Visits(order, a.states) && (a.hasOverlay ==> a.overlayLayer in order)
    requires 0 <= x < a.info.width && 0 <= y < a.info.height && !PreservedAt(a, order, x, y)
    ensures Scenario(a, order, contents, fetch, x, y, c)
    ensures !Matches(a, opens, plays, order, contents, fetch, x, y, c)
  {
    ReachableInv(a);
    var l, at := a.states[a.overlayLayer], Position(order, a.overlayLayer);
    var video, ground, read := Sample(1.0, 1.0), 0.0, Sample(1.0, 1.0);
    if !WholeCrop(l.sourceCrop) {
      var column := Column(a, order, Scene(a, order[..at], video, ground), x, y, c);
      read := if Mix(Faded(l, video), Software(column[..at])) == 0.0 then Sample(1.0, 1.0) else Sample(0.0, 1.0);
    } else if l.planeAlpha < 1.0 {
      BlackGround(a, order, video, x, y, c, at);
      FadedWhite(l);
    } else if l.blendMode == Coverage {
      video, read := Sample(1.0, 0.0), Sample(1.0, 0.0);
      BlackGround(a, order, video, x, y, c, at);
      NothingCovered(l, 1.0, 0.0);
    } else {
      video, ground, read := TRANSPARENT, 1.0, TRANSPARENT;
      WhiteGround(a, order, video, x, y, c, at);
      NothingCovered(l, 0.0, Software(Column(a, order, Scene(a, order[..at], video, ground), x, y, c)[..at]));
    }
    contents := Scene(a, order[..at], video, ground);
    fetch := Memory(a, order, contents, read);
    SceneDiffers(a, opens, plays, order, video, ground, read, x, y, c);
  }

  /** The picture is preserved at a pixel, for everything the layers can hold there, exactly if the overlay
      layer does not cover it, a layer above is sure to hide it, or the overlay layer has plane alpha at
      least 1, whole crop edges, and is opaque or else premultiplied with nothing below it. */
  lemma PreservedExactlyAtPixel(a: Adapter, opens: bool, plays: bool, order: seq<LayerId>, x: int, y: int, c: Channel)
    requires Presents(a, opens, plays) && Visits(order, a.states)
    requires 0 <= x < a.info.width && 0 <= y < a.info.height
    ensures a.hasOverlay ==> a.overlayLayer in order
    ensures (forall contents: Contents, fetch: Fetch ::
               Scenario(a, order, contents, fetch, x, y, c) ==>
                 Matches(a, opens, plays, order, contents, fetch, x, y, c))
            <==> PreservedAt(a, order, x, y)
  {
    ReachableInv(a);
    if PreservedAt(a, order, x, y) {
      forall contents: Contents, fetch: Fetch | Scenario(a, order, contents, fetch, x, y, c)
        ensures Matches(a, opens, plays, order, contents, fetch, x, y, c)
      {
        ConditionSuffices(a, opens, plays, order, contents, fetch, x, y, c);
      }
    } else {
      var contents, fetch := ConditionIsNeeded(a, opens, plays, order, x, y, c);
    }
  }

  /** The same for whole pictures, in whatever order the layers lie. */
  lemma PreservedExactly(a: Adapter, opens: bool, plays: bool, order: seq<LayerId>)
    requires Presents(a, opens, plays) && Visits(order, a.states)
    ensures a.hasOverlay ==> a.overlayLayer in order
    ensures (forall contents: Contents, fetch: Fetch, x, y, c ::
               Scenario(a, order, contents, fetch, x, y, c) ==>
                 Matches(a, opens, plays, order, contents, fetch, x, y, c))
            <==> forall x, y :: 0 <= x < a.info.width && 0 <= y < a.info.height ==> PreservedAt(a, order, x, y)
  {
    ReachableInv(a);
    if forall x, y :: 0 <= x < a.info.width && 0 <= y < a.info.height ==> PreservedAt(a, order, x, y) {
      forall contents: Contents, fetch: Fetch, x, y, c | Scenario(a, order, contents, fetch, x, y, c)
        ensures Matches(a, opens, plays, order, contents, fetch, x, y, c)
      {
        ConditionSuffices(a, opens, plays, order, contents, fetch, x, y, c);
      }
    } else {
      var x, y :| 0 <= x < a.info.width && 0 <= y < a.info.height && !PreservedAt(a, order, x, y);
      var contents, fetch := ConditionIsNeeded(a, opens, plays, order, x, y, Red);
    }
  }

  // ---------------------------------------------------------------------------------------------
  // Displays that are reached and show another picture
  // ---------------------------------------------------------------------------------------------

  /** A present that goes through and has, at the first pixel, another colour than software makes of it. */
  ghost predicate ShowsInstead(a: Adapter, order: seq<LayerId>, contents: Contents, fetch: Fetch,
                               shown: real, exact: real)
  {
    && Presents(a, true, true) && a.hasOverlay && Visits(order, a.states)
    && Scenario(a, order, contents, fetch, 0, 0, Red)
    && var column := Column(a, order, contents, 0, 0, Red);
       && Displayed(PresentOutcome(a, true, true), column, fetch, 0, 0, Red) == shown
       && Software(column) == exact
  }

  lemma OneCell(s: Sample, erases: bool, plane: real)
    ensures var column := [Video(s, erases)];
            Software(column) == s.color && Gap(column, 0, plane) == plane - s.color
  {
    var column := [Video(s, erases)];
    assert column[..0] == [] && column[1..] == [] && column[..1] == column;
  }

  lemma LoneColumn(info: Info, l: LayerState, contents: Contents)
    requires Covers(l.displayFrame, 0, 0)
    ensures var a := LoneOverlay(info, l);
            && Visits([1], a.states) && Position([1], 1) == 0
            && Column(a, [1], contents, 0, 0, Red) == [Video(Faded(l, contents(1, 0, 0, Red)), false)]
  {
  }

  /** A lone overlay shows what the video channel reads. */
  lemma LoneOverlayShows(info: Info, l: LayerState, s: Sample, read: Sample) returns (contents: Contents, fetch: Fetch)
    requires Eligible(info, l) && l.validatedType == HWC2_COMPOSITION_DEVICE && Covers(l.displayFrame, 0, 0)
    requires info.width > 0 && info.height > 0 && CanHold(l, s) && (WholeCrop(l.sourceCrop) ==> read == s)
    ensures ShowsInstead(LoneOverlay(info, l), [1], contents, fetch, read.color, Faded(l, s).color)
  {
    var a := LoneOverlay(info, l);
    contents := (_, _, _, _) => s;
    fetch := Memory(a, [1], contents, read);
    LoneOverlayIsReachable(info, l);
    LoneColumn(info, l, contents);
    MemoryFetches(a, [1], contents, read, 0, 0, Red);
    MemoryPlane(a, true, true, [1], contents, read, 0, 0, Red);
    OverlayPreservesPicture(a, true, true, [1], contents, fetch, 0, 0, Red);
    OneCell(Faded(l, s), false, read.color);
  }

  /** A layer over a display of one pixel. */
  function VideoPixel(alpha: real): LayerState {
    LayerState(Some(Buffer(true, Yv12, 1, 1, 0)), HWC2_COMPOSITION_DEVICE, HWC2_COMPOSITION_DEVICE, Premultiplied,
               Rect(0, 0, 1, 1), Crop(0.0, 0.0, 1.0, 1.0), alpha, 0, 1)
  }

  lemma VideoPixelIsEligible(alpha: real)
    requires 0.999 <= alpha
    ensures Eligible(Info(1, 1), VideoPixel(alpha))
  {
  }

  lemma WhitePixel(alpha: real)
    requires 0.999 <= alpha < 1.0
    ensures CanHold(VideoPixel(alpha), Sample(1.0, 1.0))
    ensures Faded(VideoPixel(alpha), Sample(1.0, 1.0)).color == alpha
  {
  }

  /** Validation accepts every plane alpha from 0.999 on, so displays that do not preserve the picture are
      reached: white video of plane alpha less than 1 is shown white, not as bright as software shows it. */
  lemma ThinVideoIsShownOpaque(alpha: real) returns (a: Adapter, contents: Contents, fetch: Fetch)
    requires 0.999 <= alpha < 1.0
    ensures a.overlayLayer in a.states && a.states[a.overlayLayer].planeAlpha == alpha
    ensures ShowsInstead(a, [1], contents, fetch, 1.0, alpha)
  {
    a := LoneOverlay(Info(1, 1), VideoPixel(alpha));
    VideoPixelIsEligible(alpha);
    WhitePixel(alpha);
    contents, fetch := LoneOverlayShows(Info(1, 1), VideoPixel(alpha), Sample(1.0, 1.0), Sample(1.0, 1.0));
  }

  /** An overlay whose crop starts on a half pixel is read elsewhere, where it may have any other colour. */
  lemma HalfPixelCropIsRead(s: Sample, read: Sample) returns (a: Adapter, contents: Contents, fetch: Fetch)
    requires CanHold(HALF_PIXEL_CROP, s)
    ensures a.states == map[1 := HALF_PIXEL_CROP] && ShowsInstead(a, [1], contents, fetch, read.color, s.color)
  {
    a := LoneOverlay(Info(4, 4), HALF_PIXEL_CROP);
    FloorIs(0.5, 0);
    contents, fetch := LoneOverlayShows(Info(4, 4), HALF_PIXEL_CROP, s, read);
  }

  // A buffer swapped between validation and present.

  const WHITE := NEW_LAYER.(displayFrame := Rect(0, 0, 1, 1))
  const TARGET := Buffer(true, Rgba8888, 1, 1, 1)
  const TRANSLUCENT := VideoPixel(1.0).(buffer := Some(Buffer(true, Rgba8888, 1, 1, 2)))

  /** A video layer and a client layer on a display of one pixel, before validation. */
  function TwoLayers(video: LayerState): Adapter {
    Adapter(Info(1, 1), 2, {1, 2}, map[1 := video, 2 := WHITE], map[], {}, Some(TARGET),
            false, false, false, false, 0, Modified)
  }

  /** The same after validation. */
  function Overlaid(video: LayerState, validity: Validity): Adapter {
    Adapter(Info(1, 1), 2, {1, 2}, map[1 := video, 2 := WHITE], map[], {1}, Some(TARGET),
            true, false, true, true, 1, validity)
  }

  lemma TwoLayersAreReachable(video: LayerState)
    requires video.validatedType == NEW_LAYER.validatedType
    ensures Reachable(TwoLayers(video))
  {
    var one := OneLayer(Info(1, 1), video);
    OneLayerIsReachable(Info(1, 1), video);
    ReachableNext(one, Create(true));
    var created := one.(nextLayerId := 2, layers := {1, 2}, states := map[1 := video, 2 := NEW_LAYER]);
    assert Next(one, Create(true)) == created;
    ReachableNext(created, Set(2, DisplayFrame(Rect(0, 0, 1, 1))));
    var placed := created.(states := map[1 := video, 2 := WHITE]);
    assert Next(created, Set(2, DisplayFrame(Rect(0, 0, 1, 1)))) == placed;
    ReachableNext(placed, SetClientTarget(Some(TARGET)));
  }

  lemma OneOfTwoIsEligible(video: LayerState)
    requires Eligible(Info(1, 1), video)
    ensures MayChoose(TwoLayers(video), true, 1)
  {
    assert WHITE.requestedType == HWC2_COMPOSITION_CLIENT;
  }

  lemma TwoLayersTyped(video: LayerState)
    requires video.requestedType == HWC2_COMPOSITION_DEVICE
    ensures var states := map[1 := video, 2 := WHITE];
            && states.Keys == {1, 2}
            && Typed(states, {1, 2}, 1) == map[1 := video.(validatedType := HWC2_COMPOSITION_DEVICE), 2 := WHITE]
            && Changes(states, {1, 2}, 1) == map[]
            && HasClient({1, 2}, 1)
  {
    assert ValidatedTypeOf(2, 1) == HWC2_COMPOSITION_CLIENT;
  }

  lemma TwoLayersValidate(video: LayerState)
    requires video.requestedType == HWC2_COMPOSITION_DEVICE
    ensures Validate(TwoLayers(video), true, 1)
         == Overlaid(video.(validatedType := HWC2_COMPOSITION_DEVICE), ValidatedWithChanges)
  {
    TwoLayersTyped(video);
    var typed := map[1 := video.(validatedType := HWC2_COMPOSITION_DEVICE), 2 := WHITE];
    assert typed.Keys == {1, 2};
  }

  lemma OverlaidAccepts(video: LayerState)
    requires video.requestedType == video.validatedType
    ensures Accept(Overlaid(video, ValidatedWithChanges)) == Overlaid(video, Validated)
  {
    var states := map[1 := video, 2 := WHITE];
    assert Accepted(states, {1, 2}) == states;
  }

  lemma OverlaidSwaps(video: LayerState, buffer: Option<Buffer>)
    ensures Next(Overlaid(video, Validated), SetLayerBufferTo(1, buffer))
         == Overlaid(video.(buffer := buffer), Validated)
  {
    var states := map[1 := video, 2 := WHITE];
    assert states[1 := video.(buffer := buffer)] == map[1 := video.(buffer := buffer), 2 := WHITE];
  }

  lemma OverlaidWithChangesIsReachable(video: LayerState)
    requires Eligible(Info(1, 1), video) && video.validatedType == NEW_LAYER.validatedType
    ensures Reachable(Overlaid(video.(validatedType := HWC2_COMPOSITION_DEVICE), ValidatedWithChanges))
  {
    TwoLayersAreReachable(video);
    OneOfTwoIsEligible(video);
    ReachableNext(TwoLayers(video), ValidateDisplay(true, 1));
    TwoLayersValidate(video);
  }

  lemma OverlaidIsReachable(video: LayerState)
    requires video.requestedType == video.validatedType
    requires Reachable(Overlaid(video, ValidatedWithChanges))
    ensures Reachable(Overlaid(video, Validated))
  {
    ReachableNext(Overlaid(video, ValidatedWithChanges), AcceptDisplayChanges);
    OverlaidAccepts(video);
  }

  lemma SwappedIsReachable()
    ensures Reachable(Overlaid(TRANSLUCENT, Validated))
  {
    var before := VideoPixel(1.0).(validatedType := NEW_LAYER.validatedType);
    VideoPixelIsEligible(1.0);
    OverlaidWithChangesIsReachable(before);
    assert before.(validatedType := HWC2_COMPOSITION_DEVICE) == VideoPixel(1.0);
    OverlaidIsReachable(VideoPixel(1.0));
    ReachableNext(Overlaid(VideoPixel(1.0), Validated), SetLayerBufferTo(1, TRANSLUCENT.buffer));
    OverlaidSwaps(VideoPixel(1.0), TRANSLUCENT.buffer);
  }

  lemma SwappedIsShown()
    ensures PresentOutcome(Overlaid(TRANSLUCENT, Validated), true, true).shown
  {
    FloorIs(1.5, 1);
  }

  const HALF := Sample(0.5, 0.5)

  /** Half a video over white. */
  function HalfOverWhite(): Contents {
    (id, x, y, c) => if id == 1 then HALF else Sample(1.0, 1.0)
  }

  lemma SwappedColumn()
    ensures var a := Overlaid(TRANSLUCENT, Validated);
            && Visits([2, 1], a.states) && Position([2, 1], 1) == 1
            && Column(a, [2, 1], HalfOverWhite(), 0, 0, Red) == [Drawn(Sample(1.0, 1.0)), Video(HALF, true)]
  {
  }

  lemma TwoCells()
    ensures var column := [Drawn(Sample(1.0, 1.0)), Video(HALF, true)];
            Software(column) == 1.0 && Gap(column, 1, 0.5) == -0.5
  {
    var column := [Drawn(Sample(1.0, 1.0)), Video(HALF, true)];
    assert column[..1] == [Drawn(Sample(1.0, 1.0))] && column[..1][..0] == [];
    assert column[..2] == column && column[2..] == [];
  }

  /** A video buffer swapped for one with an alpha channel after validation is shown without its alpha, and
      the client target is cleared all the same: what software shows white comes out half as bright. */
  lemma SwappedBufferIsShownOpaque() returns (a: Adapter, contents: Contents, fetch: Fetch)
    ensures a == Overlaid(TRANSLUCENT, Validated) && ShowsInstead(a, [2, 1], contents, fetch, 0.5, 1.0)
  {
    a := Overlaid(TRANSLUCENT, Validated);
    contents := HalfOverWhite();
    fetch := Memory(a, [2, 1], contents, HALF);
    SwappedPresents();
    SwappedColumn();
    TwoCells();
    SwappedScenario();
    SwappedPlane();
    OverlayPreservesPicture(a, true, true, [2, 1], contents, fetch, 0, 0, Red);
  }

  lemma SwappedPresents()
    ensures Presents(Overlaid(TRANSLUCENT, Validated), true, true)
  {
    SwappedIsReachable();
    SwappedIsShown();
  }

  lemma SwappedScenario()
    ensures var a := Overlaid(TRANSLUCENT, Validated);
            && Visits([2, 1], a.states)
            && Scenario(a, [2, 1], HalfOverWhite(), Memory(a, [2, 1], HalfOverWhite(), HALF), 0, 0, Red)
  {
    SwappedColumn();
    AlphaFormats(Rgba8888);
    MemoryFetches(Overlaid(TRANSLUCENT, Validated), [2, 1], HalfOverWhite(), HALF, 0, 0, Red);
  }

  lemma SwappedPlane()
    ensures var a := Overlaid(TRANSLUCENT, Validated);
            Plane(a, Memory(a, [2, 1], HalfOverWhite(), HALF), 0, 0, Red) == 0.5
  {
    SwappedPresents();
    MemoryPlane(Overlaid(TRANSLUCENT, Validated), true, true, [2, 1], HalfOverWhite(), HALF, 0, 0, Red);
  }
}
