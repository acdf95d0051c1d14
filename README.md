# Frame-to-RGB decoder of the ESP32-CAM SD-card example

The SD-card example of `esp32cam_rs` captures camera frames and stores them
as PNG files. Its one piece of logic is `framebuffer_to_img`: it turns a
camera frame into a `width x height` RGB image. The frame has a width, a
height, a pixel-format tag and a raw byte buffer. The image is built with
`ImageBuffer::from_fn`, one pixel at a time, in row-major order. For each
pixel, a closure looks at the frame's format:

- **RGB565.** Pixel (x, y) is the two bytes at offset `(x + y*width)*2`.
  They are read as a big-endian `u16`. The `rgb565` crate unpacks that
  value into a red, green, blue triple.
- **GRAYSCALE.** Pixel (x, y) is the byte at offset `x + y*width`. That byte
  is copied into all three channels.
- **Any other format.** The closure panics with "unsupported format".

This project models that function in Dafny and proves what it does.

- `rgb565_bits.dfy` (module `Rgb565Bits`) covers the bytes and words. It
  defines big-endian assembly of two bytes into a 16-bit sample. It also
  defines the standard RGB565 fields: red in bits 15-11, green in bits
  10-5, blue in bits 4-0.
- `frame_decoder.dfy` (module `FrameDecoder`) covers the frame and the
  image. It models the per-pixel closure, `DecodePixel`, and the row-major
  construction of the image, `DecodeRow`, `DecodeRows` and
  `FramebufferToImg`.
- `decoder_properties.dfy` (module `DecoderProperties`) holds the lemmas.
  They state the image's shape, which bytes each pixel comes from, exactly
  when each format decodes without panicking, and that every other format
  fails.

Modelling choices:

- **Panics are error results.** A panic becomes `Err`: an unsupported
  format, a slice index out of range, or an arithmetic overflow.
  `from_fn` runs the closure in row-major order, so the model's result is
  the error of the first pixel that fails. The contract of
  `FramebufferToImg` says this through `FirstFailure`.
- **The target is 32-bit.** `usize` and `u32` have the same range, so the
  `as u32` and `as usize` casts change no value.
- **Overflow is checked.** The model follows a debug build, where an
  overflow panics. This applies to `y*width`, `x + y*width` and the
  multiplication by 2.
- **The unpacker is a parameter.** `rgb565::Rgb565::unpack_565` lives in a
  crate whose code is not visible. Every member that decodes a pixel
  therefore takes it as a parameter `unpack: word -> (byte, byte, byte)`. No particular
  5/6-to-8-bit scaling is claimed. `ChannelSources` assumes only that each
  output channel depends on its own RGB565 field alone. It states that
  assumption in its `requires` (`FollowsRgb565Layout`).
- **Bytes are integers.** Bytes and 16-bit words are integers in their
  unsigned ranges, so a bit field is a quotient and remainder by a power of
  two.
- **The image is a list of rows.** `rows[y][x]` is the pixel at column x,
  row y.

## Model

| member | source | states |
|---|---|---|
| `FrameDecoder.PixelAddress` | examples/sd.rs:39-48 | the pixel's byte offset is `(x + y*width)*bytesPerPixel`; it fails with an overflow exactly when that offset exceeds `usize::MAX` |
| `FrameDecoder.DecodePixel` | examples/sd.rs:37-57 | RGB565 succeeds exactly when the offset does not overflow and both bytes `a`, `a+1` are in the buffer, and then gives the unpacked big-endian sample of those two bytes; GRAYSCALE succeeds exactly when byte `x + y*width` is in the buffer, and then gives that byte in all three channels; any other format gives `UnsupportedFormat` |
| `FrameDecoder.DecodeRow` | examples/sd.rs:34-37 | a row succeeds exactly when each of its pixels does; it then has `width - x` entries, entry `i - x` equal to pixel `i`; otherwise it fails with the error of its first failing pixel |
| `FrameDecoder.DecodeRows` | examples/sd.rs:34-37 | rows succeed exactly when every pixel in them does; they then have `height - y` rows of `width` pixels, each equal to the decoded pixel; otherwise they fail with the first failing pixel's error in row-major order |
| `FrameDecoder.FramebufferToImg` | examples/sd.rs:32-59 | the image exists exactly when every pixel decodes; it has the frame's width and height, and pixel (x, y) is `DecodePixel(x, y)`; otherwise the result is the error of the first failing pixel in row-major order |
| `Rgb565Bits.FromBeBytes` | examples/sd.rs:40 | `u16::from_be_bytes`: the first byte is the word's high byte and the second its low byte, so no two byte pairs give the same sample |
| `Rgb565Bits.FromBeBytesCovers` | examples/sd.rs:40 | every 16-bit value is the big-endian assembly of its own high and low bytes |
| `Rgb565Bits.Red5` | examples/sd.rs:42 | the red field of a sample is below 32 |
| `Rgb565Bits.Green6` | examples/sd.rs:42 | the green field of a sample is below 64 |
| `Rgb565Bits.Blue5` | examples/sd.rs:42 | the blue field of a sample is below 32 |
| `Rgb565Bits.FieldsRebuildWord` | examples/sd.rs:42 | packing the three fields of a sample rebuilds the sample |
| `Rgb565Bits.PackedFieldsSplit` | examples/sd.rs:42 | splitting a packed sample gives back the fields it was packed from |
| `Rgb565Bits.FieldsInBytes` | examples/sd.rs:40-42 | red is the top 5 bits of the first byte; blue is the low 5 bits of the second; green is the low 3 bits of the first byte followed by the top 3 bits of the second |
| `DecoderProperties.Rgb565PixelInBounds` | examples/sd.rs:39-40 | if the buffer holds at least `2*width*height` bytes and fits a slice, every pixel decodes with no overflow or bad index |
| `DecoderProperties.Rgb565DecodesIffBufferCovers` | examples/sd.rs:38-45 | an RGB565 frame whose buffer fits a slice decodes exactly when the buffer holds at least `2*width*height` bytes |
| `DecoderProperties.GrayscaleDecodesIffBufferCovers` | examples/sd.rs:47-52 | a GRAYSCALE frame whose buffer fits a slice decodes exactly when the buffer holds at least `width*height` bytes |
| `DecoderProperties.OtherFormatFails` | examples/sd.rs:54-56 | any other format decodes exactly when the frame has no pixels; otherwise it fails with `UnsupportedFormat` |
| `DecoderProperties.EmptyFrameAlwaysDecodes` | examples/sd.rs:34-37 | a frame of width 0 or height 0 gives an empty image of its own dimensions, whatever its format and buffer |
| `DecoderProperties.Rgb565PixelIsBigEndianSample` | examples/sd.rs:39-44 | in a decoded RGB565 image, pixel (x, y)'s two bytes are in the buffer, and the pixel is the unpacked `data[a]*256 + data[a+1]` with channels in order, for `a = (x + y*width)*2` |
| `DecoderProperties.Rgb565PixelPassesSample` | examples/sd.rs:40-44 | every 16-bit sample, stored as its big-endian bytes, reaches the unpacker unchanged, and the pixel is the unpacker's `(.0, .1, .2)` in that order |
| `DecoderProperties.Rgb565PixelDependsOnlyOnItsBytes` | examples/sd.rs:39-40 | two RGB565 frames of the same width that agree on bytes `a` and `a+1` give the same pixel (x, y), whatever else their buffers hold |
| `DecoderProperties.GrayscalePixelIsReplicated` | examples/sd.rs:47-51 | in a decoded GRAYSCALE image, pixel (x, y) has three equal channels, each `data[x + y*width]` |
| `DecoderProperties.ChannelSources` | examples/sd.rs:42 | for an unpacker that reads each channel from its own RGB565 field: red depends only on the first byte's top five bits, blue only on the second byte's low five bits, and green only on the three bits on each side of the byte boundary |
| `DecoderProperties.GrayscaleExample` | examples/sd.rs:47-51 | a 1x1 GRAYSCALE frame holding 0x80 decodes to the single pixel (128, 128, 128) |
| `DecoderProperties.Rgb565Example` | examples/sd.rs:38-44 | in a 2x2 RGB565 frame, pixel (1, 1) is the unpacked sample 0xF800 held at bytes 6 and 7 |
| `DecoderProperties.ShortBufferExample` | examples/sd.rs:40 | a 1x1 RGB565 frame with one byte panics when indexing its second byte, byte 1 |

## Left out

- `main` (examples/sd.rs:61-141) is not modelled. It covers peripheral acquisition, camera pin wiring, the SPI driver and its 26 MHz clock, and opening the SD card, volume and root directory. It also holds the capture loop, which sleeps 1000 ms between frames. All of this is hardware and I/O set-up.
- PNG encoding (`write_to`, examples/sd.rs:129-130) is not modelled. It belongs to the `image` codec.
- The file write (examples/sd.rs:131-134) is not modelled. It is a storage call, and it always writes the fixed name `curr.png`.
- `DummyTimesource::get_timestamp` (examples/sd.rs:17-30) is not modelled. It returns a constant all-zero timestamp, so there is nothing to verify.
- examples/print.rs is not modelled. It only wires the camera and prints frame metadata.
- Sequential file naming, a sleep-duration configuration file and deep sleep are not modelled. The example has none of them.
- JPEG pass-through is not modelled. `framebuffer_to_img` treats JPEG like any other unsupported format.
- `rgb565::Rgb565::unpack_565` is not modelled: it is a parameter. Its code is not visible, so its 5/6-bit-to-8-bit scaling is unknown. No result such as "0xF800 gives (255, 0, 0)" is claimed.
- `ImageBuffer::new` (from the `image` crate) is not modelled, and its code is not visible. It panics when `width*height*3` overflows `usize`, before any pixel is produced. It also allocates a `width*height*3`-byte buffer: that allocation panics with a capacity overflow above `isize::MAX` and aborts when the board runs out of memory, as a large frame can (a 1600x1200 GRAYSCALE frame needs a 5.76 MB image). `FramebufferToImg` does not see these panics: it returns the per-pixel result, an image when every pixel decodes and otherwise the first failing pixel's error.
- FramebufferToImg: follows a debug build, where arithmetic overflow panics. A release build wraps instead. The two agree whenever `2*width*height` fits in `usize`, and in particular on every input covered by `Rgb565DecodesIffBufferCovers` and `GrayscaleDecodesIffBufferCovers`.
- Rgb565DecodesIffBufferCovers: requires `|data| <= usize::MAX`, which every Rust slice on the 32-bit target satisfies.
- GrayscaleDecodesIffBufferCovers: requires `|data| <= usize::MAX`, which every Rust slice on the 32-bit target satisfies.
- Panic messages and the captured frame's lifetime are not modelled. A panic is only its kind: unsupported format, overflow, or index and length.
