# Grayscale batch converter, modelled in Dafny

The program converts every image in an input folder to grayscale and saves each result as a
JPEG in an output folder. Its logic sits in `src/main.rs`, in three parts, and this project
models each one:

- `convert_to_grayscale` allocates a fresh `RgbaImage` of the input's width and height. It
  visits every pixel in a nested `for y` / `for x` loop. For each one it writes the gray value
  of the input pixel into red, green and blue, and copies the input pixel's alpha.
- The filter in `main` keeps only file names ending in `.jpg`, `.jpeg` or `.png`. The
  comparison is byte-wise and case-sensitive.
- The output path is the output folder, then `/`, then the first four bytes of the input
  name, then `_output.jpg`.

Modules:

- `Pixels` (`pixels.dfy`) holds the `u8` channel type, the `Rgba` pixel and Rust's
  saturating `f32 as u8` cast (`CastToU8`). It also holds the gray value of a pixel (`Gray`)
  and the pixel written for it (`GrayPixel`). The f32 evaluation of
  `0.299 * r + 0.587 * g + 0.114 * b` is a parameter, `weigh`, of type
  `WeightedSum = (Byte, Byte, Byte) -> real`. The parameter takes only the three colour
  channels, so the gray value cannot depend on alpha.
- `Raster` (`raster.dfy`) holds the decoded input `Image`: width, height and a row-major
  sequence of pixels, as `get_pixel` presents them. It also holds the `RgbaImage` output
  class. That class has a flat `array<Byte>` of four channel bytes per pixel, with pixel
  (x, y) at offset `4 * (y * width + x)`, and a ghost log `writes` of the coordinates of
  every `put_pixel` call made on it. It has the zero-filling constructor
  (`RgbaImage::new`), `GetPixel` and `PutPixel`.
- `ScanOrder` (`raster.dfy`) holds `RowMajor(w, h)`, the sequence of coordinates a row-by-row
  scan visits, and the lemmas that it visits each in-grid pixel exactly once, as visit
  number `y * w + x`.
- `Grayscale` (`grayscale.dfy`) holds the method `ConvertToGrayscale` with its two nested
  `while` loops. `GrayscaleOf` is the image the method must produce, written as a value.
  `Filled` is the loop invariant on the output buffer.
- `FileNames` (`filenames.dfy`) holds `IsImageName` and `OutputPath`. File names are the
  bytes of their UTF-8 encoding, because `&file_name[..4]` slices bytes. A slice that would
  panic is the result `Panic(OutOfBounds)` or `Panic(NotCharBoundary)`; it is not a
  precondition.

`PutPixel` appends its coordinate to the image's `writes` log, so the log is the sequence of
`put_pixel` calls actually made. The contract of `ConvertToGrayscale` says that:

- the output has the input's dimensions;
- every output pixel (x, y) is `GrayPixel` of input pixel (x, y): red = green = blue = the
  gray value, and alpha is the input's alpha;
- read back as an image, the output buffer equals `GrayscaleOf(weigh, img)`;
- `out.writes == RowMajor(width, height)`, so by `ScanOrder.RowMajorVisitsOnce` each pixel
  is written exactly once, in row-major order.

Its loop invariant (`Filled`, preserved by `FillStep`) says that after `done` pixels those
pixels are gray and every later byte still holds the zero from `RgbaImage::new`. After the
last pixel, `FilledImage` turns the invariant into the pixel-by-pixel and whole-image results.

The program has only this sequential transform: it has no parallel variant and no chunk-size
setting. The output name keeps the first four bytes of the input name, not four characters.
A name shorter than four bytes cannot reach the slice, because each accepted suffix is
already four bytes long (`ImageNamesAreLongEnough`). A name whose fifth byte (index 4) falls
inside a multi-byte character does reach it, and the slice panics
(`AcceptedNamesPanicOnlyMidCharacter`).

## Model

| member | source | states |
|---|---|---|
| Pixels.CastToU8 | src/main.rs:60 | `as u8` on the weighted sum gives 0 for values up to 0, 255 for values from 255 up, and otherwise the value truncated toward zero |
| Pixels.CastToU8Monotone | src/main.rs:60 | a larger weighted sum never casts to a smaller byte |
| Pixels.Gray | src/main.rs:60 | `gray_value` is the `as u8` cast of the f32 weighted sum of channels 0-2 (`weigh`) |
| Pixels.GrayPixel | src/main.rs:63 | the pixel written for input pixel `p` is `(gray, gray, gray, p.a)` |
| Pixels.GrayIgnoresAlpha | src/main.rs:60 | the gray value depends only on channels 0-2 of the pixel |
| Raster.RgbaImage.New | src/main.rs:52 | `RgbaImage::new(w, h)` has width `w`, height `h`, a fresh buffer of `4 * w * h` bytes, all zero |
| Raster.WritePixel | src/main.rs:63 | writing pixel `i` leaves the buffer length unchanged, makes pixel `i` read back as the written pixel, and changes no byte outside `4 * i .. 4 * i + 3` |
| Raster.RgbaImage.PutPixel | src/main.rs:63 | `put_pixel(x, y, p)` on an in-range pixel replaces exactly the four bytes of pixel `y * width + x` with `p`, and appends (x, y) to the `writes` log |
| Raster.Image.At | src/main.rs:57 | `get_pixel(x, y)` on an in-range coordinate of the input is its pixel number `y * width + x` |
| ScanOrder.RowAt | src/main.rs:55 | the inner loop visits columns `0 .. n - 1` of row `y`, column `x` as its `x`-th visit |
| ScanOrder.LinearInjective | src/main.rs:54-63 | two in-grid pixels with the same offset `y * w + x` are the same pixel, so no two `put_pixel` calls of the scan write the same bytes |
| ScanOrder.RowMajorIndex | src/main.rs:54-55 | the nested loop makes `w * h` visits; visit `k` is an in-grid coordinate whose linear index is `k` |
| ScanOrder.RowMajorVisitsOnce | src/main.rs:54-65 | every in-grid pixel (x, y) is visited exactly once, as visit number `y * w + x` |
| Grayscale.GrayscaleOfAt | src/main.rs:57-63 | the gray image has the input's width and height; at every (x, y) its red, green and blue equal the gray value of input pixel (x, y) and its alpha equals that pixel's alpha |
| Grayscale.GrayscaleOfIgnoresAlpha | src/main.rs:57-63 | inputs that agree on a pixel's colour channels give the same gray there, and each keeps its own alpha |
| Grayscale.FillStep | src/main.rs:52-65 | writing the next gray pixel extends the finished prefix by one pixel and leaves every later byte at its initial zero |
| Raster.RgbaImage.Snapshot | src/main.rs:52-63 | the output buffer read back as an image has the buffer's width and height, and its pixel (x, y) is what `get_pixel(x, y)` reads from the buffer |
| Grayscale.FilledImage | src/main.rs:54-67 | once every pixel has been written, each output pixel (x, y) is the gray pixel of input pixel (x, y), and the whole buffer reads back as the gray image |
| Grayscale.ConvertToGrayscale | src/main.rs:50-68 | a fresh image of the input's dimensions; every pixel (x, y) is `(gray, gray, gray, alpha)` of input pixel (x, y); the `put_pixel` calls recorded in `out.writes` are exactly the row-major scan of the grid |
| FileNames.EndsWith | src/main.rs:27 | `str::ends_with`: the last `\|suffix\|` bytes of the name are `suffix` |
| FileNames.IsImageName | src/main.rs:27 | the filter: the name ends with `.jpg`, `.jpeg` or `.png` |
| FileNames.IsCharBoundary | src/main.rs:35 | `str::is_char_boundary(i)`: `i` is 0, the length, or the index of a byte outside 0x80-0xBF |
| FileNames.EndsWithIff | src/main.rs:27 | `ends_with(suffix)` holds exactly when the name is some stem followed by `suffix` |
| FileNames.IsImageNameIff | src/main.rs:27 | a name is converted exactly when it is a stem followed by `.jpg`, `.jpeg` or `.png`; all others are skipped |
| FileNames.UpperCaseExtensionsSkipped | src/main.rs:27 | the test is case-sensitive: names ending in `.JPG`, `.JPEG` or `.PNG` are skipped |
| FileNames.ImageNamesAreLongEnough | src/main.rs:27 | every accepted name is at least four bytes long |
| FileNames.OutputPath | src/main.rs:35 | the path exists exactly when the name has at least four bytes and index 4 is the end of the name or starts a character; otherwise the slice panics, out of bounds exactly when the name is shorter than four bytes |
| FileNames.OutputPathLayout | src/main.rs:35 | the path splits back into the folder, one `/`, the name's first four bytes and `_output.jpg` |
| FileNames.OutputPathCollides | src/main.rs:35 | two names with the same first four bytes get the same output path |
| FileNames.OutputPathIsJpg | src/main.rs:35 | every output path ends in `.jpg` and so would itself pass the filter |
| FileNames.AcceptedNamesPanicOnlyMidCharacter | src/main.rs:27-35 | an accepted name never makes the slice go out of bounds, but the accepted name `abcé.png` makes it panic at a char boundary |
| FileNames.Test1Saved | src/main.rs:27-35 | `test1.png` is accepted and saved as `<folder>/test_output.jpg` |

## Left out

- Clearing the output folder and listing the input folder (`fs::read_dir`,
  `fs::remove_file`, src/main.rs:11-16 and 21-24) are filesystem I/O. So is the loop in
  `main` that chains filter, open, convert and save for each entry.
- `image::open` (decoding) and `save` (JPEG encoding) are calls into the `image` library,
  whose code is not part of this model. The input is taken as an already decoded RGBA grid,
  and the format conversion `DynamicImage::get_pixel` does for non-RGBA inputs is not
  modelled.
- Every `expect` panic (unreadable folder, undecodable image, failed save) aborts the run.
  That is I/O failure and is not modelled; only the slice panic at src/main.rs:35 is modelled.
- Pixels.Gray: the f32 products and sums, and their rounding, are not modelled. The weighted
  sum is the parameter `weigh`, so no specific gray value (for instance 254 for white) is
  claimed. Only the saturating truncation of `as u8` is modelled exactly. The NaN case of the
  cast (NaN becomes 0) is not modelled, since a weighted sum of bytes is never NaN.
- Raster.RgbaImage.New: width and height are `u32` in the source and unbounded `nat` here.
  The panic of `RgbaImage::new` when `4 * width * height` overflows the address space is not
  modelled.
- Timing and printing (`Instant::now`, `println!`, src/main.rs:18 and 43-47) do not affect
  the output.
- FileNames.IsCharBoundary follows `str::is_char_boundary`, which assumes valid UTF-8.
  `to_string_lossy` guarantees valid UTF-8, so the model does not check it.
