/** The image utilities: the parameter rules and guards around the pixel
    transforms, and the dispatch that turns a matrix into a displayable image.

    A matrix is modelled by its header (rows, columns, OpenCV element type)
    and opaque pixel data. The pixel work of the image-processing library is
    an input, `PixelOps`, whose members are arbitrary total functions; the
    header each library call produces is stated here, following the library's
    documented behaviour. */
module ImageUtils {

  // ----- element types -----

  /** OpenCV element type codes: the depth in the low three bits and the
      channel count minus one above them (`CV_MAKETYPE`). */
  const CV_CN_SHIFT: int := 3
  const CV_DEPTH_MAX: int := 8
  const CV_CN_MAX: int := 512

  type MatType = t: int | 0 <= t < CV_DEPTH_MAX * CV_CN_MAX

  const CV_8U: int := 0
  const CV_8UC1: MatType := 0
  const CV_8UC3: MatType := 16

  function MakeType(depth: int, cn: int): (t: MatType)
    requires 0 <= depth < CV_DEPTH_MAX && 1 <= cn <= CV_CN_MAX
    ensures Depth(t) == depth && Channels(t) == cn
  {
    depth + (cn - 1) * CV_DEPTH_MAX
  }

  function Depth(t: MatType): int
  {
    t % CV_DEPTH_MAX
  }

  function Channels(t: MatType): int
  {
    t / CV_DEPTH_MAX + 1
  }

  lemma TypeCodes()
    ensures CV_8UC1 == MakeType(CV_8U, 1) && CV_8UC3 == MakeType(CV_8U, 3)
    ensures Channels(CV_8UC1) == 1 && Channels(CV_8UC3) == 3
  {
  }

  // ----- matrices and rectangles -----

  datatype Mat = Mat(rows: nat, cols: nat, typ: MatType, data: seq<int>)
  {
    /** `Mat::empty`: no elements. */
    predicate IsEmpty()
    {
      rows == 0 || cols == 0
    }
  }

  /** A default-constructed matrix. */
  const EmptyMat: Mat := Mat(0, 0, CV_8UC1, [])

  datatype Rect = Rect(x: int, y: int, width: int, height: int)

  /** The pixel (px, py) lies in the half-open rectangle. */
  predicate Contains(r: Rect, px: int, py: int)
  {
    r.x <= px < r.x + r.width && r.y <= py < r.y + r.height
  }

  function Max(a: int, b: int): int { if a < b then b else a }
  function Min(a: int, b: int): int { if a < b then a else b }

  /** `Rect & Rect`: the intersection, or the empty `Rect()` when the two do not overlap. */
  function Intersect(a: Rect, b: Rect): (r: Rect)
    ensures forall px, py :: Contains(r, px, py) <==> Contains(a, px, py) && Contains(b, px, py)
    ensures (r.width > 0 && r.height > 0) || r == Rect(0, 0, 0, 0)
  {
    var x1 := Max(a.x, b.x);
    var y1 := Max(a.y, b.y);
    var w := Min(a.x + a.width, b.x + b.width) - x1;
    var h := Min(a.y + a.height, b.y + b.height) - y1;
    if w <= 0 || h <= 0 then Rect(0, 0, 0, 0) else Rect(x1, y1, w, h)
  }

  // ----- the library's pixel work -----

  datatype ColorConversion = COLOR_BGR2RGB | COLOR_BGR2GRAY | COLOR_GRAY2BGR | COLOR_BGR2HSV | COLOR_HSV2BGR

  /** Channel count of the result of each colour conversion. */
  function ConversionChannels(code: ColorConversion): int
  {
    match code
    case COLOR_BGR2GRAY => 1
    case _ => 3
  }

  /** The pixel data each library call computes; nothing is assumed about it. */
  datatype PixelOps = PixelOps(
    cvtColor: (Mat, ColorConversion) -> seq<int>,
    convertTo: (Mat, int, int) -> seq<int>,     // gain in tenths, offset
    addToChannel: (Mat, int, int) -> seq<int>,  // split, add to one channel, merge
    gaussianBlur: (Mat, int) -> seq<int>,       // square kernel side
    filter2D: Mat -> seq<int>,                  // the 3x3 sharpening kernel
    rotate: Mat -> seq<int>,                    // 90 degrees clockwise
    roi: (Mat, Rect) -> seq<int>)               // copy of a sub-rectangle

  /** `cvtColor`: same size and depth, the channel count of the conversion. */
  function CvtColor(src: Mat, code: ColorConversion, ops: PixelOps): (r: Mat)
    ensures r.rows == src.rows && r.cols == src.cols
    ensures Depth(r.typ) == Depth(src.typ) && Channels(r.typ) == ConversionChannels(code)
  {
    Mat(src.rows, src.cols, MakeType(Depth(src.typ), ConversionChannels(code)), ops.cvtColor(src, code))
  }

  // ----- the transforms -----

  /** `adjustBrightnessContrast`: `convertTo` with the source type kept. The
      gain is the contrast slider value in tenths. */
  function AdjustBrightnessContrast(src: Mat, contrastTenths: int, beta: int, ops: PixelOps): (r: Mat)
    ensures r.rows == src.rows && r.cols == src.cols && r.typ == src.typ
  {
    Mat(src.rows, src.cols, src.typ, ops.convertTo(src, contrastTenths, beta))
  }

  /** `adjustSaturation`: only 8-bit 3-channel input goes through HSV;
      anything else comes back unchanged. The type is kept either way. */
  function AdjustSaturation(src: Mat, saturationVal: int, ops: PixelOps): (r: Mat)
    ensures src.typ != CV_8UC3 ==> r == src
    ensures r.rows == src.rows && r.cols == src.cols && r.typ == src.typ
  {
    if src.typ != CV_8UC3 then src
    else
      var hsv := CvtColor(src, COLOR_BGR2HSV, ops);
      var merged := hsv.(data := ops.addToChannel(hsv, 1, saturationVal));
      CvtColor(merged, COLOR_HSV2BGR, ops)
  }

  /** `rotate90`: clockwise, so the dimensions swap. */
  function Rotate90(src: Mat, ops: PixelOps): (r: Mat)
    ensures r.rows == src.cols && r.cols == src.rows && r.typ == src.typ
  {
    Mat(src.cols, src.rows, src.typ, ops.rotate(src))
  }

  /** The Gaussian kernel side used for a blur request: odd, and the
      request itself when that is already odd, else one more. */
  function BlurKernel(kernelSize: int): (k: int)
    requires kernelSize > 0
    ensures k % 2 == 1
    ensures kernelSize <= k <= kernelSize + 1
    ensures k == kernelSize <==> kernelSize % 2 == 1
  {
    if kernelSize % 2 == 0 then kernelSize + 1 else kernelSize
  }

  /** `applyBlur`: a non-positive size returns the input unchanged. */
  function ApplyBlur(src: Mat, kernelSize: int, ops: PixelOps): (r: Mat)
    ensures kernelSize <= 0 ==> r == src
    ensures kernelSize > 0 ==> r.data == ops.gaussianBlur(src, BlurKernel(kernelSize))
    ensures r.rows == src.rows && r.cols == src.cols && r.typ == src.typ
  {
    if kernelSize <= 0 then src
    else Mat(src.rows, src.cols, src.typ, ops.gaussianBlur(src, BlurKernel(kernelSize)))
  }

  /** `toGrayscale`: single-channel input is returned unchanged; anything else
      goes to gray and back, so the result has three channels of the same depth. */
  function ToGrayscale(src: Mat, ops: PixelOps): (r: Mat)
    ensures Channels(src.typ) == 1 ==> r == src
    ensures Channels(src.typ) != 1 ==> Channels(r.typ) == 3
    ensures r.rows == src.rows && r.cols == src.cols && Depth(r.typ) == Depth(src.typ)
  {
    if Channels(src.typ) == 1 then src
    else CvtColor(CvtColor(src, COLOR_BGR2GRAY, ops), COLOR_GRAY2BGR, ops)
  }

  /** `sharpen`: `filter2D` with the source depth kept. */
  function Sharpen(src: Mat, ops: PixelOps): (r: Mat)
    ensures r.rows == src.rows && r.cols == src.cols && r.typ == src.typ
  {
    Mat(src.rows, src.cols, src.typ, ops.filter2D(src))
  }

  /** The rectangle `crop` extracts: the request clamped to the image. */
  function CropRect(src: Mat, rect: Rect): (r: Rect)
    ensures 0 <= r.x && 0 <= r.y && 0 <= r.width && 0 <= r.height
    ensures r.x + r.width <= src.cols && r.y + r.height <= src.rows
    ensures forall px, py :: Contains(r, px, py) <==>
      Contains(rect, px, py) && 0 <= px < src.cols && 0 <= py < src.rows
    ensures (r.width > 0 && r.height > 0) || r == Rect(0, 0, 0, 0)
  {
    Intersect(rect, Rect(0, 0, src.cols, src.rows))
  }

  /** `crop`: a copy of the clamped rectangle, never larger than the image.
      A selection that misses the image leaves an empty region, and the copy
      of an empty region is a default-constructed matrix, so only a non-empty
      crop keeps the type of the source. */
  function Crop(src: Mat, rect: Rect, ops: PixelOps): (r: Mat)
    ensures r.rows <= src.rows && r.cols <= src.cols
    ensures r.rows == CropRect(src, rect).height && r.cols == CropRect(src, rect).width
    ensures !r.IsEmpty() ==> r.typ == src.typ
    ensures r.IsEmpty() ==> r == EmptyMat
  {
    var roi := CropRect(src, rect);
    if roi.width == 0 then EmptyMat
    else Mat(roi.height, roi.width, src.typ, ops.roi(src, roi))
  }

  // ----- display conversion -----

  datatype QImageFormat = Format_Grayscale8 | Format_RGB888

  datatype QImage = NullImage | Image(width: nat, height: nat, format: QImageFormat, pixels: seq<int>)

  /** `matToQImage`: an empty matrix or an unsupported type gives a null image;
      8-bit gray becomes `Format_Grayscale8` as it is, 8-bit colour becomes
      `Format_RGB888` after the BGR-to-RGB swap. */
  function MatToQImage(src: Mat, ops: PixelOps): (r: QImage)
    ensures r.NullImage? <==> src.IsEmpty() || (src.typ != CV_8UC1 && src.typ != CV_8UC3)
    ensures r.Image? ==> r.width == src.cols && r.height == src.rows
    ensures r.Image? ==> (r.format == Format_Grayscale8 <==> src.typ == CV_8UC1)
    ensures r.Image? && src.typ == CV_8UC1 ==> r.pixels == src.data
    ensures r.Image? && src.typ == CV_8UC3 ==> r.pixels == ops.cvtColor(src, COLOR_BGR2RGB)
  {
    if src.IsEmpty() then NullImage
    else if src.typ == CV_8UC1 then Image(src.cols, src.rows, Format_Grayscale8, src.data)
    else if src.typ == CV_8UC3 then
      var rgb := CvtColor(src, COLOR_BGR2RGB, ops);
      Image(rgb.cols, rgb.rows, Format_RGB888, rgb.data)
    else NullImage
  }
}
