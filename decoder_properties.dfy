/** What `framebuffer_to_img` promises about its result: the shape of the
    image, which buffer bytes each pixel is made of, exactly when each
    format decodes without a panic, and the failure of every other format. */
module DecoderProperties {
  import opened Rgb565Bits
  import opened FrameDecoder

  /** The row-major index of a pixel inside the frame lies below width * height. */
  lemma {:induction false} LinearIndexBelow(w: nat, h: nat, x: nat, y: nat)
    requires x < w && y < h
    ensures LinearIndex(w, x, y) < w * h
  {
    assert y * w <= (h - 1) * w by { MulMonotone(y, h - 1, w); }
    assert (h - 1) * w == h * w - w;
  }

  /** The last pixel of a non-empty frame has row-major index width * height - 1. */
  lemma LastLinearIndex(w: nat, h: nat)
    requires w > 0 && h > 0
    ensures (w - 1) + (h - 1) * w == w * h - 1
  {
    assert (h - 1) * w == h * w - w;
  }

  lemma MulMonotone(a: nat, b: nat, c: nat)
    requires a <= b
    ensures a * c <= b * c
  {
  }

  /** Every pixel of an RGB565 frame whose buffer has two bytes per pixel
      (and fits a Rust slice) is decoded without overflow or bad index. */
  lemma Rgb565PixelInBounds(unpack: Unpacker, f: Frame, x: u32, y: u32)
    requires f.format == RGB565 && 2 * f.width * f.height <= |f.data| <= MAX_USIZE
    requires x < f.width && y < f.height
    ensures DecodePixel(unpack, f, x, y).Ok?
  {
    LinearIndexBelow(f.width, f.height, x, y);
  }

  /** An RGB565 frame whose buffer a Rust slice can hold decodes without a
      panic exactly when the buffer has two bytes for every pixel. */
  lemma Rgb565DecodesIffBufferCovers(unpack: Unpacker, f: Frame)
    requires f.format == RGB565 && |f.data| <= MAX_USIZE
    ensures FramebufferToImg(unpack, f).Ok? <==> 2 * f.width * f.height <= |f.data|
  {
    var w, h := f.width, f.height;
    if 2 * w * h <= |f.data| {
      forall x: u32, y: u32 | x < w && y < h
        ensures DecodePixel(unpack, f, x, y).Ok?
      {
        Rgb565PixelInBounds(unpack, f, x, y);
      }
    } else {
      assert w * h > 0;
      LastLinearIndex(w, h);
      assert DecodePixel(unpack, f, w - 1, h - 1).Err?;
    }
  }

  /** A GRAYSCALE frame whose buffer a Rust slice can hold decodes without a
      panic exactly when the buffer has one byte for every pixel. */
  lemma GrayscaleDecodesIffBufferCovers(unpack: Unpacker, f: Frame)
    requires f.format == GRAYSCALE && |f.data| <= MAX_USIZE
    ensures FramebufferToImg(unpack, f).Ok? <==> f.width * f.height <= |f.data|
  {
    var w, h := f.width, f.height;
    if w * h <= |f.data| {
      forall x: u32, y: u32 | x < w && y < h
        ensures DecodePixel(unpack, f, x, y).Ok?
      {
        LinearIndexBelow(w, h, x, y);
      }
    } else {
      LastLinearIndex(w, h);
      assert DecodePixel(unpack, f, w - 1, h - 1).Err?;
    }
  }

  /** Any other pixel format panics with "unsupported format" as soon as the
      image has one pixel, and only then. */
  lemma OtherFormatFails(unpack: Unpacker, f: Frame)
    requires f.format.Other?
    ensures FramebufferToImg(unpack, f).Ok? <==> f.width * f.height == 0
    ensures FramebufferToImg(unpack, f).Err? ==> FramebufferToImg(unpack, f).error == UnsupportedFormat
  {
    if f.width * f.height != 0 {
      assert DecodePixel(unpack, f, 0, 0).Err?;
    }
  }

  /** The format is examined per pixel, so a frame without pixels becomes an
      empty image of the frame's dimensions whatever its format and buffer. */
  lemma EmptyFrameAlwaysDecodes(unpack: Unpacker, f: Frame)
    requires f.width == 0 || f.height == 0
    ensures FramebufferToImg(unpack, f) == Ok(Image(f.width, f.height, seq(f.height, _ => [])))
  {
    var r := FramebufferToImg(unpack, f);
    assert r.Ok?;
    assert r.value.rows == seq(f.height, _ => []);
  }

  /** Each RGB565 pixel of a decoded image is the unpacker's three channels,
      in order, of the big-endian word made of the two bytes at its offset. */
  lemma Rgb565PixelIsBigEndianSample(unpack: Unpacker, f: Frame, x: u32, y: u32)
    requires f.format == RGB565 && x < f.width && y < f.height
    requires FramebufferToImg(unpack, f).Ok?
    ensures LinearIndex(f.width, x, y) * 2 + 1 < |f.data|
    ensures var img := FramebufferToImg(unpack, f).value;
      var a := LinearIndex(f.width, x, y) * 2;
      var c := PixelAt(img, x, y);
      (c.r, c.g, c.b) == unpack(f.data[a] as int * 256 + f.data[a + 1] as int)
  {
    assert DecodePixel(unpack, f, x, y).Ok?;
  }

  /** Every 16-bit sample reaches the unpacker unchanged: the pixel made of
      the big-endian bytes of `v` is the unpacker's three channels of `v`, in
      their order. */
  lemma Rgb565PixelPassesSample(unpack: Unpacker, v: word)
    ensures Rgb565Pixel(unpack, HighByte(v), LowByte(v)) == Rgb(unpack(v).0, unpack(v).1, unpack(v).2)
  {
    FromBeBytesCovers(v);
  }

  /** Only the two bytes at its offset affect an RGB565 pixel: frames of the
      same width that agree on those two bytes give the same pixel, whatever
      the rest of their buffers hold. */
  lemma Rgb565PixelDependsOnlyOnItsBytes(unpack: Unpacker, f: Frame, g: Frame, x: u32, y: u32)
    requires f.format == RGB565 && g.format == RGB565 && f.width == g.width
    requires x < f.width && y < f.height && y < g.height
    requires FramebufferToImg(unpack, f).Ok? && FramebufferToImg(unpack, g).Ok?
    requires var a := LinearIndex(f.width, x, y) * 2;
      a + 1 < |f.data| && a + 1 < |g.data| && f.data[a] == g.data[a] && f.data[a + 1] == g.data[a + 1]
    ensures PixelAt(FramebufferToImg(unpack, f).value, x, y) == PixelAt(FramebufferToImg(unpack, g).value, x, y)
  {
  }

  /** Each GRAYSCALE pixel of a decoded image is the byte at its offset
      copied into all three channels. */
  lemma GrayscalePixelIsReplicated(unpack: Unpacker, f: Frame, x: u32, y: u32)
    requires f.format == GRAYSCALE && x < f.width && y < f.height
    requires FramebufferToImg(unpack, f).Ok?
    ensures LinearIndex(f.width, x, y) < |f.data|
    ensures var c := PixelAt(FramebufferToImg(unpack, f).value, x, y);
      c.r == c.g == c.b == f.data[LinearIndex(f.width, x, y)]
  {
    assert DecodePixel(unpack, f, x, y).Ok?;
  }

  /** An unpacker that follows the RGB565 layout: each output channel is a
      function of its own field alone (red of bits 15-11, green of bits 10-5,
      blue of bits 4-0), with whatever scaling it applies. */
  ghost predicate FollowsRgb565Layout(unpack: Unpacker)
  {
    && (forall a: word, b: word :: Red5(a) == Red5(b) ==> unpack(a).0 == unpack(b).0)
    && (forall a: word, b: word :: Green6(a) == Green6(b) ==> unpack(a).1 == unpack(b).1)
    && (forall a: word, b: word :: Blue5(a) == Blue5(b) ==> unpack(a).2 == unpack(b).2)
  }

  /** With such an unpacker, the red channel of a pixel depends only on the top
      five bits of its first byte, the blue channel only on the low five bits
      of its second byte, and the green channel only on the low three bits of
      the first and the top three bits of the second. */
  lemma {:induction false} ChannelSources(unpack: Unpacker, hi: byte, lo: byte, hi': byte, lo': byte)
    requires FollowsRgb565Layout(unpack)
    ensures hi / 8 == hi' / 8 ==> Rgb565Pixel(unpack, hi, lo).r == Rgb565Pixel(unpack, hi', lo').r
    ensures lo % 32 == lo' % 32 ==> Rgb565Pixel(unpack, hi, lo).b == Rgb565Pixel(unpack, hi', lo').b
    ensures hi % 8 == hi' % 8 && lo / 32 == lo' / 32 ==>
      Rgb565Pixel(unpack, hi, lo).g == Rgb565Pixel(unpack, hi', lo').g
  {
    FieldsInBytes(hi, lo);
    FieldsInBytes(hi', lo');
  }

  /** Worked cases. A one-pixel GRAYSCALE frame holding 0x80 gives the grey (128, 128, 128). */
  lemma GrayscaleExample(unpack: Unpacker)
    ensures FramebufferToImg(unpack, Frame(1, 1, GRAYSCALE, [0x80]))
      == Ok(Image(1, 1, [[Rgb(0x80, 0x80, 0x80)]]))
  {
    var f := Frame(1, 1, GRAYSCALE, [0x80]);
    GrayscaleDecodesIffBufferCovers(unpack, f);
    var img := FramebufferToImg(unpack, f).value;
    assert PixelAt(img, 0, 0) == Rgb(0x80, 0x80, 0x80);
    assert img.rows[0] == [Rgb(0x80, 0x80, 0x80)];
    assert img.rows == [[Rgb(0x80, 0x80, 0x80)]];
    assert img == Image(1, 1, [[Rgb(0x80, 0x80, 0x80)]]);
  }

  /** Pixel (1, 1) of a 2 x 2 RGB565 frame is the sample 0xF800 stored at bytes 6 and 7. */
  lemma Rgb565Example(unpack: Unpacker)
    ensures var f := Frame(2, 2, RGB565, [0, 0, 0, 0, 0, 0, 0xF8, 0x00]);
      var c := unpack(0xF800);
      FramebufferToImg(unpack, f).Ok?
      && PixelAt(FramebufferToImg(unpack, f).value, 1, 1) == Rgb(c.0, c.1, c.2)
  {
    var f := Frame(2, 2, RGB565, [0, 0, 0, 0, 0, 0, 0xF8, 0x00]);
    Rgb565DecodesIffBufferCovers(unpack, f);
  }

  /** A one-pixel RGB565 frame with a single byte panics on the index of its second byte. */
  lemma ShortBufferExample(unpack: Unpacker)
    ensures FramebufferToImg(unpack, Frame(1, 1, RGB565, [0x12])) == Err(IndexOutOfBounds(1, 1))
  {
    var f := Frame(1, 1, RGB565, [0x12]);
    assert DecodePixel(unpack, f, 0, 0) == Err(IndexOutOfBounds(1, 1));
  }
}
