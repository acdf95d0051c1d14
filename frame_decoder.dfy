/** The frame-to-RGB decoder of the SD-card capture example: a camera frame
    (width, height, pixel-format tag, raw bytes) becomes a width x height
    grid of RGB triples. The per-pixel rule is `DecodePixel`; the whole
    image is built row by row, `y` outer and `x` inner, and the first pixel
    whose decoding panics makes the whole conversion fail with that panic.

    The target is 32-bit, so `usize` and `u32` have the same range and the
    `as u32` / `as usize` casts of the source change no value. Arithmetic is
    checked as in a debug build: an overflow is a panic, reported as
    `ArithmeticOverflow`. The colour unpacker of the `rgb565` crate is not
    visible, so it is a parameter `unpack` of every member that decodes a pixel. */
module FrameDecoder {
  import opened Rgb565Bits

  const MAX_U32: nat := 0xFFFF_FFFF
  /** `usize::MAX` on the 32-bit target. */
  const MAX_USIZE: nat := MAX_U32

  type u32 = n: nat | n <= MAX_U32

  /** The pixel-format tag of a frame; every other tag of the camera driver is `Other`. */
  datatype PixelFormat = RGB565 | GRAYSCALE | Other(tag: nat)

  /** A frame handed out by the camera driver. */
  datatype Frame = Frame(width: u32, height: u32, format: PixelFormat, data: seq<byte>)

  /** `Rgb<u8>`. */
  datatype Rgb = Rgb(r: byte, g: byte, b: byte)

  /** `ImageBuffer<Rgb<u8>, _>`: `rows[y][x]` is the pixel at column x, row y. */
  datatype Image = Image(width: u32, height: u32, rows: seq<seq<Rgb>>)

  /** The panics the conversion can raise. */
  datatype DecodeError =
    | UnsupportedFormat
    | ArithmeticOverflow
    | IndexOutOfBounds(index: nat, len: nat)

  datatype Result<T> = Ok(value: T) | Err(error: DecodeError)

  /** `rgb565::Rgb565::unpack_565`: a 16-bit sample to its (red, green, blue) bytes. */
  type Unpacker = word -> (byte, byte, byte)

  /** The image has `height` rows of `width` pixels each. */
  predicate Shaped(img: Image)
  {
    && |img.rows| == img.height
    && forall y :: 0 <= y < |img.rows| ==> |img.rows[y]| == img.width
  }

  function PixelAt(img: Image, x: nat, y: nat): Rgb
    requires Shaped(img) && x < img.width && y < img.height
  {
    img.rows[y][x]
  }

  /** The row-major index `x + y * width` of pixel (x, y). */
  function LinearIndex(width: nat, x: nat, y: nat): nat
  {
    x + y * width
  }

  /** `(x + y * width) as usize * bytesPerPixel`, each step checked for overflow. */
  function PixelAddress(width: u32, x: u32, y: u32, bytesPerPixel: nat): (r: Result<nat>)
    requires bytesPerPixel == 1 || bytesPerPixel == 2
    ensures r.Ok? <==> LinearIndex(width, x, y) * bytesPerPixel <= MAX_USIZE
    ensures r.Ok? ==> r.value == LinearIndex(width, x, y) * bytesPerPixel
    ensures r.Err? ==> r.error == ArithmeticOverflow
  {
    if y * width > MAX_U32 then Err(ArithmeticOverflow)
    else if LinearIndex(width, x, y) > MAX_U32 then Err(ArithmeticOverflow)
    else if LinearIndex(width, x, y) * bytesPerPixel > MAX_USIZE then Err(ArithmeticOverflow)
    else Ok(LinearIndex(width, x, y) * bytesPerPixel)
  }

  /** The closure given to `ImageBuffer::from_fn`: the pixel at column x, row y. */
  function DecodePixel(unpack: Unpacker, f: Frame, x: u32, y: u32): (r: Result<Rgb>)
    requires x < f.width && y < f.height
    ensures f.format.Other? ==> r == Err(UnsupportedFormat)
    ensures f.format == RGB565 ==>
      var a := LinearIndex(f.width, x, y) * 2;
      && (r.Ok? <==> a <= MAX_USIZE && a + 1 < |f.data|)
      && (r.Ok? ==> r.value == Rgb565Pixel(unpack, f.data[a], f.data[a + 1]))
    ensures f.format == GRAYSCALE ==>
      var a := LinearIndex(f.width, x, y);
      && (r.Ok? <==> a <= MAX_USIZE && a < |f.data|)
      && (r.Ok? ==> r.value == Rgb(f.data[a], f.data[a], f.data[a]))
  {
    match f.format
    case RGB565 =>
      (match PixelAddress(f.width, x, y, 2)
       case Err(e) => Err(e)
       case Ok(addr) =>
         // addr is even and at most MAX_USIZE, which is odd, so addr + 1 cannot overflow
         if addr >= |f.data| then Err(IndexOutOfBounds(addr, |f.data|))
         else if addr + 1 >= |f.data| then Err(IndexOutOfBounds(addr + 1, |f.data|))
         else
           var decoded := unpack(FromBeBytes(f.data[addr], f.data[addr + 1]));
           Ok(Rgb(decoded.0, decoded.1, decoded.2)))
    case GRAYSCALE =>
      (match PixelAddress(f.width, x, y, 1)
       case Err(e) => Err(e)
       case Ok(addr) =>
         if addr >= |f.data| then Err(IndexOutOfBounds(addr, |f.data|))
         else
           var raw := f.data[addr];
           Ok(Rgb(raw, raw, raw)))
    case Other(_) => Err(UnsupportedFormat)
  }

  /** The colour of an RGB565 sample stored as the bytes `hi`, `lo`: the
      unpacker's three channels of the big-endian word, in their order. */
  function Rgb565Pixel(unpack: Unpacker, hi: byte, lo: byte): Rgb
  {
    var decoded := unpack(FromBeBytes(hi, lo));
    Rgb(decoded.0, decoded.1, decoded.2)
  }

  /** Pixels x, x+1, ..., width-1 of row y, stopping at the first failure. */
  function DecodeRow(unpack: Unpacker, f: Frame, y: u32, x: u32): (r: Result<seq<Rgb>>)
    requires y < f.height && x <= f.width
    decreases f.width - x
    ensures r.Ok? <==> forall i: u32 :: x <= i < f.width ==> DecodePixel(unpack, f, i, y).Ok?
    ensures r.Ok? ==>
      && |r.value| == f.width - x
      && forall i: u32 :: x <= i < f.width ==> r.value[i - x] == DecodePixel(unpack, f, i, y).value
    ensures r.Err? ==>
      exists i: u32 :: x <= i < f.width && DecodePixel(unpack, f, i, y) == Err(r.error)
        && forall k: u32 :: x <= k < i ==> DecodePixel(unpack, f, k, y).Ok?
  {
    if x == f.width then Ok([])
    else
      match DecodePixel(unpack, f, x, y)
      case Err(e) => Err(e)
      case Ok(p) =>
        match DecodeRow(unpack, f, y, x + 1)
        case Err(e) => Err(e)
        case Ok(rest) => Ok([p] + rest)
  }

  /** Rows y, y+1, ..., height-1, stopping at the first failure. */
  function DecodeRows(unpack: Unpacker, f: Frame, y: u32): (r: Result<seq<seq<Rgb>>>)
    requires y <= f.height
    decreases f.height - y
    ensures r.Ok? <==>
      forall i: u32, j: u32 :: i < f.width && y <= j < f.height ==> DecodePixel(unpack, f, i, j).Ok?
    ensures r.Ok? ==>
      && |r.value| == f.height - y
      && (forall j :: 0 <= j < |r.value| ==> |r.value[j]| == f.width)
      && forall i: u32, j: u32 :: i < f.width && y <= j < f.height ==>
           r.value[j - y][i] == DecodePixel(unpack, f, i, j).value
    ensures r.Err? ==> exists i: u32, j: u32 :: FirstFailure(unpack, f, y, i, j, r.error)
  {
    if y == f.height then Ok([])
    else
      var row := DecodeRow(unpack, f, y, 0);
      if row.Err? then
        var i: u32 :| i < f.width && DecodePixel(unpack, f, i, y) == Err(row.error)
          && forall k: u32 :: k < i ==> DecodePixel(unpack, f, k, y).Ok?;
        assert FirstFailure(unpack, f, y, i, y, row.error);
        Err(row.error)
      else
        var rest := DecodeRows(unpack, f, y + 1);
        if rest.Err? then
          var i: u32, j: u32 :| FirstFailure(unpack, f, y + 1, i, j, rest.error);
          assert FirstFailure(unpack, f, y, i, j, rest.error);
          Err(rest.error)
        else
          var rows := [row.value] + rest.value;
          Ok(rows)
  }

  /** Pixel (x, y) is the first one, in row-major order among the rows from
      `y0` on, whose decoding fails, and it fails with `e`. */
  predicate FirstFailure(unpack: Unpacker, f: Frame, y0: u32, x: u32, y: u32, e: DecodeError)
  {
    && x < f.width && y0 <= y < f.height
    && DecodePixel(unpack, f, x, y) == Err(e)
    && (forall i: u32 :: i < x ==> DecodePixel(unpack, f, i, y).Ok?)
    && (forall i: u32, j: u32 :: i < f.width && y0 <= j < y ==> DecodePixel(unpack, f, i, j).Ok?)
  }

  /** `framebuffer_to_img`: the whole frame as an RGB image, or the panic of
      the first pixel, in row-major order, that cannot be decoded. */
  function FramebufferToImg(unpack: Unpacker, f: Frame): (r: Result<Image>)
    ensures r.Ok? <==>
      forall x: u32, y: u32 :: x < f.width && y < f.height ==> DecodePixel(unpack, f, x, y).Ok?
    ensures r.Ok? ==>
      && r.value.width == f.width && r.value.height == f.height && Shaped(r.value)
      && forall x: u32, y: u32 :: x < f.width && y < f.height ==>
           PixelAt(r.value, x, y) == DecodePixel(unpack, f, x, y).value
    ensures r.Err? ==> exists x: u32, y: u32 :: FirstFailure(unpack, f, 0, x, y, r.error)
  {
    match DecodeRows(unpack, f, 0)
    case Err(e) => Err(e)
    case Ok(rows) => Ok(Image(f.width, f.height, rows))
  }
}
