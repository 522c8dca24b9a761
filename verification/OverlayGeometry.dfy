/** The pure part of the DSS overlay fallback: formats, rectangles, and fillDssLayer(). Coordinates
    are mathematical integers and floats are reals. */
module OverlayGeometry {
  import opened Common

  datatype Rect = Rect(left: int, top: int, right: int, bottom: int)

  datatype Crop = Crop(left: real, top: real, right: real, bottom: real)

  datatype HalFormat =
    | Rgba8888 | Rgbx8888 | Rgb565 | Bgra8888
    | YCbCr422Sp | YCrCb420Sp | Yv12
    | Vendor(code: int)

  /** What is read of a gralloc handle; `layout` stands for the addresses and strides, which are only
      copied. */
  datatype Buffer = Buffer(isHisi: bool, format: HalFormat, width: nat, height: nat, layout: int)

  type Uint32 = x: int | 0 <= x < INT32_RANGE

  /** The display. */
  datatype Info = Info(width: Uint32, height: Uint32)

  // The hardware's pixel formats.
  const HISI_RGB_565 := 0
  const HISI_RGBX_8888 := 5
  const HISI_RGBA_8888 := 6
  const HISI_BGRX_8888 := 12
  const HISI_BGRA_8888 := 13
  const HISI_YUV_422_I := 14
  const HISI_YCBCR_422_SP := 15
  const HISI_YCRCB_422_SP := 16
  const HISI_YCBCR_420_SP := 17
  const HISI_YCRCB_420_SP := 18
  const HISI_YCBCR_422_P := 19
  const HISI_YCRCB_422_P := 20
  const HISI_YCBCR_420_P := 21
  const HISI_YCRCB_420_P := 22

  /** The hardware's pixel format and bytes per pixel. */
  function ConvertHisiFormat(format: HalFormat): Option<(int, int)> {
    match format
    case Rgba8888 => Some((HISI_RGBA_8888, 4))
    case Rgbx8888 => Some((HISI_RGBX_8888, 4))
    case Rgb565 => Some((HISI_RGB_565, 2))
    case Bgra8888 => Some((HISI_BGRA_8888, 4))
    case YCbCr422Sp => Some((HISI_YCBCR_422_SP, 2))
    case YCrCb420Sp => Some((HISI_YCRCB_420_SP, 1))
    case Yv12 => Some((HISI_YCRCB_420_P, 1))
    case Vendor(code) =>
      if code == 0x100 then Some((HISI_YCBCR_420_SP, 1))
      else if code == 0x101 then Some((HISI_YCBCR_420_P, 1))
      else None
  }

  predicate IsYuvFormat(hisiFormat: int) {
    HISI_YUV_422_I <= hisiFormat <= HISI_YCRCB_420_P
  }

  // What the formats mean.

  datatype Component = R | G | B | A | Unused

  datatype Chroma = CbFirst | CrFirst

  /** How pixels lie in memory: components with their numbers of bits, in one plane; or luma with chroma
      shared by `across` by `down` pixels, interleaved with the luma or with each other, or in two planes. */
  datatype PixelLayout =
    | Packed(components: seq<(Component, nat)>)
    | Interleaved(chroma: Chroma, across: nat, down: nat)
    | SemiPlanar(chroma: Chroma, across: nat, down: nat)
    | Planar(chroma: Chroma, across: nat, down: nat)

  function Bytes(components: seq<Component>): PixelLayout {
    Packed(seq(|components|, k requires 0 <= k < |components| => (components[k], 8)))
  }

  const PACKED_565 := Packed([(R, 5), (G, 6), (B, 5)])

  /** The layout a HAL format stands for; the two vendor formats are those of the vendor's decoder. */
  function HalLayout(format: HalFormat): Option<PixelLayout> {
    match format
    case Rgba8888 => Some(Bytes([R, G, B, A]))
    case Rgbx8888 => Some(Bytes([R, G, B, Unused]))
    case Rgb565 => Some(PACKED_565)
    case Bgra8888 => Some(Bytes([B, G, R, A]))
    case YCbCr422Sp => Some(SemiPlanar(CbFirst, 2, 1))
    case YCrCb420Sp => Some(SemiPlanar(CrFirst, 2, 2))
    case Yv12 => Some(Planar(CrFirst, 2, 2))
    case Vendor(code) =>
      if code == 0x100 then Some(SemiPlanar(CbFirst, 2, 2))
      else if code == 0x101 then Some(Planar(CbFirst, 2, 2))
      else None
  }

  /** The layout a hardware format stands for. */
  function HisiLayout(code: int): Option<PixelLayout> {
    if code == 0 then Some(PACKED_565)
    else if code == 5 then Some(Bytes([R, G, B, Unused]))
    else if code == 6 then Some(Bytes([R, G, B, A]))
    else if code == 12 then Some(Bytes([B, G, R, Unused]))
    else if code == 13 then Some(Bytes([B, G, R, A]))
    else if code == 14 then Some(Interleaved(CbFirst, 2, 1))
    else if code == 15 then Some(SemiPlanar(CbFirst, 2, 1))
    else if code == 16 then Some(SemiPlanar(CrFirst, 2, 1))
    else if code == 17 then Some(SemiPlanar(CbFirst, 2, 2))
    else if code == 18 then Some(SemiPlanar(CrFirst, 2, 2))
    else if code == 19 then Some(Planar(CbFirst, 2, 1))
    else if code == 20 then Some(Planar(CrFirst, 2, 1))
    else if code == 21 then Some(Planar(CbFirst, 2, 2))
    else if code == 22 then Some(Planar(CrFirst, 2, 2))
    else None
  }

  /** The memory a pixel takes, chroma shared out evenly. */
  function BitsPerPixel(layout: PixelLayout): nat {
    match layout
    case Packed(components) => TotalBits(components)
    case Interleaved(_, across, down) => ChromaBits(across, down)
    case SemiPlanar(_, across, down) => ChromaBits(across, down)
    case Planar(_, across, down) => ChromaBits(across, down)
  }

  function TotalBits(components: seq<(Component, nat)>): nat {
    if components == [] then 0 else components[0].1 + TotalBits(components[1..])
  }

  function ChromaBits(across: nat, down: nat): nat {
    if across * down == 0 then 8 else 8 + 16 / (across * down)
  }

  /** The hardware reads a buffer of the HAL format as what it is. */
  ghost predicate Describes(hisiFormat: int, bpp: int, format: HalFormat) {
    && HalLayout(format).Some? && HisiLayout(hisiFormat) == HalLayout(format)
    && bpp == BitsPerPixel(HalLayout(format).value) / 8
  }

  /** Exactly the HAL formats of known layout are converted, to a hardware format of the same layout with
      the whole bytes a pixel takes; and the hardware's YUV range is the layouts with chroma. */
  lemma ConversionKeepsLayout(format: HalFormat)
    ensures ConvertHisiFormat(format).Some? <==> HalLayout(format).Some?
    ensures ConvertHisiFormat(format).Some? ==>
              var (hisiFormat, bpp) := ConvertHisiFormat(format).value;
              Describes(hisiFormat, bpp, format)
              && (IsYuvFormat(hisiFormat) <==> !HalLayout(format).value.Packed?)
  {
    BitsOfBytes(R, G, B, A);
    BitsOfBytes(R, G, B, Unused);
    BitsOfBytes(B, G, R, A);
    assert PACKED_565.components[1..] == [(G, 6), (B, 5)] && [(G, 6), (B, 5)][1..] == [(B, 5)];
    assert TotalBits(PACKED_565.components) == 16;
  }

  lemma BitsOfBytes(a: Component, b: Component, c: Component, d: Component)
    ensures BitsPerPixel(Bytes([a, b, c, d])) == 32
  {
    OneMoreComponent((d, 8), []);
    OneMoreComponent((c, 8), [(d, 8)]);
    OneMoreComponent((b, 8), [(c, 8), (d, 8)]);
    OneMoreComponent((a, 8), [(b, 8), (c, 8), (d, 8)]);
    assert Bytes([a, b, c, d]).components == [(a, 8)] + [(b, 8), (c, 8), (d, 8)];
    assert [(b, 8)] + [(c, 8), (d, 8)] == [(b, 8), (c, 8), (d, 8)];
    assert [(c, 8)] + [(d, 8)] == [(c, 8), (d, 8)] && [(d, 8)] + [] == [(d, 8)];
  }

  lemma OneMoreComponent(first: (Component, nat), rest: seq<(Component, nat)>)
    ensures TotalBits([first] + rest) == first.1 + TotalBits(rest)
  {
    assert ([first] + rest)[1..] == rest;
  }

  /** The formats the hardware plays as video. */
  lemma VideoFormats(format: HalFormat)
    ensures ConvertHisiFormat(format).Some? && IsYuvFormat(ConvertHisiFormat(format).value.0)
            <==> format in {YCbCr422Sp, YCrCb420Sp, Yv12, Vendor(0x100), Vendor(0x101)}
  {
  }

  /** Whether pixels of the format have an alpha channel; of unknown formats it is not excluded. */
  predicate HasAlpha(format: HalFormat) {
    match HalLayout(format)
    case None => true
    case Some(layout) => layout.Packed? && exists k :: 0 <= k < |layout.components| && layout.components[k].0 == A
  }

  lemma AlphaFormats(format: HalFormat)
    ensures HasAlpha(format) <==>
              format == Rgba8888 || format == Bgra8888 || (format.Vendor? && format.code !in {0x100, 0x101})
  {
    if format == Rgba8888 || format == Bgra8888 {
      assert HalLayout(format).value.components[3].0 == A;
    }
  }

  function GetHisiFormat(buffer: Option<Buffer>): Option<int> {
    if buffer.Some? && buffer.value.isHisi && ConvertHisiFormat(buffer.value.format).Some?
    then Some(ConvertHisiFormat(buffer.value.format).value.0) else None
  }

  datatype BlendMode = NoBlend | Premultiplied | Coverage

  const HISI_BLENDING_NONE := 0
  const HISI_BLENDING_PREMULT := 1
  const HISI_BLENDING_COVERAGE := 2

  function MapHwcBlendMode(mode: BlendMode): int {
    match mode
    case Premultiplied => HISI_BLENDING_PREMULT
    case Coverage => HISI_BLENDING_COVERAGE
    case NoBlend => HISI_BLENDING_NONE
  }

  function MapHwcTransform(transform: int): int {
    if transform in {1, 2, 3, 4, 7} then transform else 0
  }

  /** Where a transform brings a picture. */
  datatype Turn = Upright | FlippedH | FlippedV | Turned90 | Turned180 | Turned270

  /** The HWC transforms, and the hardware's. */
  function HwcTurn(transform: int): Option<Turn> {
    match transform
    case 1 => Some(FlippedH)
    case 2 => Some(FlippedV)
    case 4 => Some(Turned90)
    case 3 => Some(Turned180)
    case 7 => Some(Turned270)
    case _ => None
  }

  function HisiTurn(code: int): Option<Turn> {
    match code
    case 0 => Some(Upright)
    case 0x01 => Some(FlippedH)
    case 0x02 => Some(FlippedV)
    case 0x04 => Some(Turned90)
    case 0x03 => Some(Turned180)
    case 0x07 => Some(Turned270)
    case _ => None
  }

  /** Every transform is handed on as what it is; combinations without a name are dropped. */
  lemma TransformIsKept(transform: int)
    ensures HisiTurn(MapHwcTransform(transform))
         == if HwcTurn(transform).Some? then HwcTurn(transform) else Some(Upright)
  {
  }

  predicate RectIsValid(r: Rect) {
    r.right > r.left && r.bottom > r.top
  }

  predicate CropIsValid(c: Crop) {
    c.right > c.left && c.bottom > c.top
  }

  /** The display size is cast to a signed 32-bit int before it is compared. */
  predicate FrameFitsDisplay(r: Rect, info: Info) {
    r.left >= 0 && r.top >= 0 && r.right <= ToInt32(info.width) && r.bottom <= ToInt32(info.height)
  }

  function FrameArea(r: Rect): (area: nat)
    ensures area > 0 <==> RectIsValid(r)
  {
    if !RectIsValid(r) then 0
    else
      PositiveProduct(r.right - r.left, r.bottom - r.top);
      (r.right - r.left) * (r.bottom - r.top)
  }

  /** The pixels of a rectangle. */
  ghost function Pixels(r: Rect): set<(int, int)> {
    set x: int, y: int | r.left <= x < r.right && r.top <= y < r.bottom :: (x, y)
  }

  /** The area is the number of pixels covered. */
  lemma {:induction false} AreaIsPixels(r: Rect)
    ensures |Pixels(r)| == FrameArea(r)
    decreases if r.right > r.left then r.right - r.left else 0
  {
    if !RectIsValid(r) {
      assert Pixels(r) == {};
    } else {
      var left, last := r.(right := r.right - 1), r.(left := r.right - 1);
      AreaIsPixels(left);
      ColumnIsPixels(last);
      assert Pixels(r) == Pixels(left) + Pixels(last) && Pixels(left) !! Pixels(last);
      OneMoreColumn(r.right - 1 - r.left, r.bottom - r.top);
    }
  }

  /** A rectangle one pixel wide. */
  lemma {:induction false} ColumnIsPixels(r: Rect)
    requires r.right == r.left + 1 && r.top <= r.bottom
    ensures |Pixels(r)| == r.bottom - r.top
    decreases r.bottom - r.top
  {
    if r.top == r.bottom {
      assert Pixels(r) == {};
    } else {
      var above := r.(bottom := r.bottom - 1);
      ColumnIsPixels(above);
      assert Pixels(r) == Pixels(above) + {(r.left, r.bottom - 1)};
    }
  }

  lemma OneMoreColumn(width: int, height: int)
    ensures (width + 1) * height == width * height + height
  {
  }

  lemma PositiveProduct(a: int, b: int)
    requires a > 0 && b > 0
    ensures a * b > 0
  {
  }

  /** std::round(): to the nearest integer, halves away from zero. */
  function Round(v: real): int {
    if v >= 0.0 then (v + 0.5).Floor else -((-v + 0.5).Floor)
  }

  function RoundNonNegative(v: real): nat {
    if Round(v) < 0 then 0 else Round(v)
  }

  datatype DssRect = DssRect(x: int, y: int, w: int, h: int)

  datatype Capability = CapCsc | CapScl | CapDma | CapFbPost

  datatype DssLayer = DssLayer(
    format: int, bpp: int, width: nat, height: nat, layout: int,
    srcRect: DssRect, dstRect: DssRect,
    transform: int, blending: int, glbAlpha: int,
    layerIdx: int, chnIdx: int, needCap: set<Capability>)

  function Clamp01(alpha: real): real {
    if alpha < 0.0 then 0.0 else if alpha > 1.0 then 1.0 else alpha
  }

  /** The crop lies inside the buffer. */
  predicate CropInBuffer(b: Buffer, crop: Crop) {
    && b.width > 0 && b.height > 0 && crop.left >= 0.0 && crop.top >= 0.0
    && crop.right <= b.width as real && crop.bottom <= b.height as real
  }

  /** fillDssLayer(): None is the `false` return, which leaves the output untouched. */
  function FillDssLayer(handle: Option<Buffer>, crop: Crop, frame: Rect, blendMode: BlendMode, planeAlpha: real,
                        transform: int, layerIndex: int, channel: int, needCap: set<Capability>): Option<DssLayer>
  {
    if handle.None? || !handle.value.isHisi || !CropIsValid(crop) || !RectIsValid(frame) then None
    else if !CropInBuffer(handle.value, crop) then None
    else if ConvertHisiFormat(handle.value.format).None? then None
    else
      var b := handle.value;
      var (hisiFormat, bpp) := ConvertHisiFormat(b.format).value;
      var src := DssRect(RoundNonNegative(crop.left), RoundNonNegative(crop.top),
                         RoundNonNegative(crop.right - crop.left), RoundNonNegative(crop.bottom - crop.top));
      var dst := DssRect(frame.left, frame.top, frame.right - frame.left, frame.bottom - frame.top);
      Some(DssLayer(
        hisiFormat, bpp, b.width, b.height, b.layout, src, dst,
        MapHwcTransform(transform), MapHwcBlendMode(blendMode), (Clamp01(planeAlpha) * 255.0).Floor,
        layerIndex, channel,
        needCap + (if IsYuvFormat(hisiFormat) then {CapCsc} else {})
                + (if src.w != dst.w || src.h != dst.h then {CapScl} else {})))
  }

  predicate InRect(r: DssRect, x: int, y: int) {
    r.x <= x < r.x + r.w && r.y <= y < r.y + r.h
  }

  /** fillDssLayer() accepts exactly the layers of a HiSilicon buffer of a known format, with a crop that is
      not empty and lies in the buffer, and a frame that is not empty. */
  lemma FilledExactly(handle: Option<Buffer>, crop: Crop, frame: Rect, blendMode: BlendMode, planeAlpha: real,
                      transform: int, layerIndex: int, channel: int, needCap: set<Capability>)
    ensures FillDssLayer(handle, crop, frame, blendMode, planeAlpha, transform, layerIndex, channel, needCap).Some?
            <==> && handle.Some? && handle.value.isHisi && HalLayout(handle.value.format).Some?
                 && crop.left < crop.right && crop.top < crop.bottom
                 && 0.0 <= crop.left && crop.right <= handle.value.width as real
                 && 0.0 <= crop.top && crop.bottom <= handle.value.height as real
                 && Pixels(frame) != {}
  {
    if handle.Some? {
      ConversionKeepsLayout(handle.value.format);
    }
    PixelsOfValid(frame);
  }

  lemma PixelsOfValid(r: Rect)
    ensures RectIsValid(r) <==> Pixels(r) != {}
  {
    if RectIsValid(r) {
      assert (r.left, r.top) in Pixels(r);
    }
  }

  /** The layer describes the buffer it was filled from. */
  ghost predicate Reads(layer: DssLayer, b: Buffer) {
    && Describes(layer.format, layer.bpp, b.format)
    && layer.width == b.width && layer.height == b.height && layer.layout == b.layout
  }

  /** What the layer says: the buffer; the frame's pixels; the transform; how it is blended; its global
      alpha, in 255ths, rounded down; its position and channel; and beyond the capabilities asked for,
      colour conversion for YUV and scaling if the sizes differ. */
  lemma FilledLayer(handle: Option<Buffer>, crop: Crop, frame: Rect, blendMode: BlendMode, planeAlpha: real,
                    transform: int, layerIndex: int, channel: int, needCap: set<Capability>)
    requires FillDssLayer(handle, crop, frame, blendMode, planeAlpha, transform, layerIndex, channel, needCap).Some?
    ensures var l := FillDssLayer(handle, crop, frame, blendMode, planeAlpha, transform, layerIndex, channel,
                                  needCap).value;
            && Reads(l, handle.value)
            && (forall x, y :: InRect(l.dstRect, x, y) <==> (x, y) in Pixels(frame))
            && (HwcTurn(transform).Some? ==> HisiTurn(l.transform) == HwcTurn(transform))
            && (HwcTurn(transform).None? ==> HisiTurn(l.transform) == Some(Upright))
            && l.blending == (match blendMode case NoBlend => 0 case Premultiplied => 1 case Coverage => 2)
            && 0 <= l.glbAlpha <= 255
            && (0.0 <= planeAlpha <= 1.0 ==> l.glbAlpha as real <= planeAlpha * 255.0 < l.glbAlpha as real + 1.0)
            && (planeAlpha > 1.0 ==> l.glbAlpha == 255) && (planeAlpha < 0.0 ==> l.glbAlpha == 0)
            && l.layerIdx == layerIndex && l.chnIdx == channel
            && (forall cap :: cap in l.needCap <==>
                  || cap in needCap || (cap == CapCsc && !HalLayout(handle.value.format).value.Packed?)
                  || (cap == CapScl && (l.srcRect.w != l.dstRect.w || l.srcRect.h != l.dstRect.h)))
  {
    ConversionKeepsLayout(handle.value.format);
    TransformIsKept(transform);
    AlphaInRange(planeAlpha);
  }

  lemma AlphaInRange(planeAlpha: real)
    ensures var g := (Clamp01(planeAlpha) * 255.0).Floor;
            0 <= g <= 255 && (planeAlpha > 1.0 ==> g == 255) && (planeAlpha < 0.0 ==> g == 0)
  {
    var p := Clamp01(planeAlpha);
    assert 0.0 <= p * 255.0 <= 255.0;
  }

  predicate IsWhole(v: real) {
    v == v.Floor as real
  }

  predicate IsHalf(v: real) {
    v == v.Floor as real + 0.5
  }

  /** One axis of the source rectangle: its near edge and its length are the crop's to the nearest pixel,
      so its far edge is within one pixel of the crop's, and on it when the crop has whole edges. */
  lemma RoundedExtent(near: real, far: real)
    requires 0.0 <= near < far
    ensures var edge := RoundNonNegative(near) + RoundNonNegative(far - near);
            && near - 0.5 < RoundNonNegative(near) as real <= near + 0.5
            && (far - near) - 0.5 < RoundNonNegative(far - near) as real <= (far - near) + 0.5
            && far - 1.0 <= edge as real <= far + 1.0
            && (IsWhole(near) && IsWhole(far) ==> edge as real == far)
  {
    RoundIsNear(near);
    RoundIsNear(far - near);
    if IsWhole(near) && IsWhole(far) {
      var a, b := near.Floor, far.Floor;
      assert far - near == (b - a) as real;
      FloorIs(far - near + 0.5, b - a);
      FloorIs(near + 0.5, a);
    }
  }

  predicate WholeCrop(c: Crop) {
    IsWhole(c.left) && IsWhole(c.top) && IsWhole(c.right) && IsWhole(c.bottom)
  }

  /** The rectangle has exactly the crop's edges. */
  predicate IsCrop(r: DssRect, c: Crop) {
    && r.x as real == c.left && r.y as real == c.top
    && (r.x + r.w) as real == c.right && (r.y + r.h) as real == c.bottom
  }

  /** Rounding leaves a crop as it is exactly if its edges are whole. */
  lemma CropIsKept(c: Crop)
    requires CropIsValid(c) && c.left >= 0.0 && c.top >= 0.0
    ensures IsCrop(DssRect(RoundNonNegative(c.left), RoundNonNegative(c.top),
                           RoundNonNegative(c.right - c.left), RoundNonNegative(c.bottom - c.top)), c)
            <==> WholeCrop(c)
  {
    ExtentIsKept(c.left, c.right);
    ExtentIsKept(c.top, c.bottom);
  }

  lemma ExtentIsKept(near: real, far: real)
    requires 0.0 <= near < far
    ensures var a := RoundNonNegative(near);
            a as real == near && (a + RoundNonNegative(far - near)) as real == far <==> IsWhole(near) && IsWhole(far)
  {
    RoundedExtent(near, far);
    if IsWhole(near) {
      FloorIs(near + 0.5, near.Floor);
    }
  }

  lemma FloorIs(v: real, n: int)
    requires n as real <= v < n as real + 1.0
    ensures v.Floor == n
  {
  }

  lemma RoundIsNear(v: real)
    ensures v >= 0.0 ==> v - 0.5 < RoundNonNegative(v) as real <= v + 0.5
    ensures v < 0.0 ==> RoundNonNegative(v) == 0
  {
  }

  lemma AxisOverrun(near: real, far: real, size: nat)
    requires 0.0 <= near < far <= size as real
    ensures var edge := RoundNonNegative(near) + RoundNonNegative(far - near);
            && edge <= size + 1
            && (edge > size <==> far == size as real && IsHalf(near))
  {
    RoundIsNear(near);
    RoundIsNear(far - near);
    var a, b := RoundNonNegative(near), RoundNonNegative(far - near);
    if far == size as real && IsHalf(near) {
      var n := near.Floor;
      FloorIs(near + 0.5, n + 1);
      FloorIs(far - near + 0.5, size - n);
    }
    if a + b > size {
      assert near + 0.5 == a as real;
      FloorIs(near, a - 1);
    }
  }

  /** The rounded source rectangle can leave the buffer that its crop lies in. On either axis it does
      exactly when the crop ends at the buffer's edge and starts on a half pixel, and then by one pixel. */
  lemma SourceOverrun(handle: Option<Buffer>, crop: Crop, frame: Rect, blendMode: BlendMode, planeAlpha: real,
                      transform: int, layerIndex: int, channel: int, needCap: set<Capability>)
    requires FillDssLayer(handle, crop, frame, blendMode, planeAlpha, transform, layerIndex, channel, needCap).Some?
    ensures var b := handle.value;
            var src := FillDssLayer(handle, crop, frame, blendMode, planeAlpha, transform, layerIndex, channel,
                                    needCap).value.srcRect;
            && src.x + src.w <= b.width + 1 && src.y + src.h <= b.height + 1
            && (src.x + src.w > b.width <==> crop.right == b.width as real && IsHalf(crop.left))
            && (src.y + src.h > b.height <==> crop.bottom == b.height as real && IsHalf(crop.top))
  {
    AxisOverrun(crop.left, crop.right, handle.value.width);
    AxisOverrun(crop.top, crop.bottom, handle.value.height);
  }
}
