# Vertical image flip of the OpenGL pyramid demo, in Dafny

The demo renders a textured, lit pyramid. Its one self-contained piece of
logic is `flipImageVertically` (`Source.cpp`). The function takes a packed,
row-major texture buffer of `width * height * channels` bytes and turns it
upside down in place. For each row `j` in the top half, it swaps that row
byte by byte with row `height - 1 - j`, through a temporary. Two cursors
(`index1`, `index2`) advance together while a counter `i` runs down from
`width * channels`. The function is declared at `Source.cpp:94` but no
code in the file calls it.

The model has two modules.

- `FlipSpec` (`flip_spec.dfy`) holds the specification, on sequences of
  bytes. `Flipped(s, rowLen, height)` says where each byte goes: byte `col`
  of row `r` moves to byte `col` of row `height - 1 - r`. Bytes after the
  image stay put. `SwapBlocks` exchanges two byte ranges, which is what one
  run of the inner loop does. `Progress(s, rowLen, height, j)` is the buffer
  once the first `j` row pairs have been swapped. `Rows`/`Reverse`/`Flatten`
  give an independent reference: the flipped image is the list of rows in
  reverse order. Lemmas prove the flip's properties.
- `FlipImage` (`flip_image.dfy`) is the imperative code. `width`, `height`
  and `channels` are C `int`s, modelled as the newtype `int32`. Each cursor
  and product the C code computes is also typed `int32`, so the verifier
  proves that no signed overflow happens. `height / 2` follows C, which
  truncates toward zero (`CHalf`). `FlipImageVertically` is the outer loop
  over `j`. It calls `SwapRows` for the inner loop over `i`: the same
  cursors, the same swap through `tmp`, the same increments. The caller's
  obligations are collected in `Admissible`. When the outer loop runs at
  all (`height >= 2`), every row offset the loops compute must fit in an
  `int`. When rows are non-empty, the buffer must also hold
  `width * height * channels` bytes.

Both methods return a ghost `swaps` counter. The C function returns
nothing, so this counter only exists to state how many byte exchanges are
made.

## Model

| member | source | states |
|---|---|---|
| `FlipImage.FlipImageVertically` | Source.cpp:554-570 | After the call the buffer is `Flipped` of the old buffer, with row length `width * channels`. It is also a permutation of the old bytes. Exactly `(height / 2) * width * channels` byte exchanges happen when `height >= 2` and rows are non-empty, and none otherwise. No C `int` overflow occurs under `Admissible`. |
| `FlipImage.SwapRows` | Source.cpp:561-568 | The inner loop exchanges the `i` bytes from `index1` with the `i` bytes from `index2`, in the same order, and nothing else. It makes exactly `i` exchanges. When `i <= 0` the buffer is unchanged. The cursors never pass the largest `int`. |
| `FlipImage.CHalf` | Source.cpp:556 | `height / 2` on a C `int` truncates toward zero. For `h >= 0`, `h - 2r` is 0 or 1. For `h < 0`, it is 0 or -1. |
| `FlipImage.AdmissibleHoldsImage` | Source.cpp:558-561 | When the caller's obligations hold, the buffer covers every byte the flip rearranges. |
| `FlipImage.OffsetsFit` | Source.cpp:558-559 | For each row pair in the top half, `j * width * channels` and `(height - 1 - j) * width * channels` fit in an `int`, and so do their intermediate products. The two offsets are those of rows `j` and `height - 1 - j`. For non-empty rows, the two rows are disjoint and lie inside the buffer. |
| `FlipSpec.Mirror` | Source.cpp:556-559 | The destination of byte `k` of the image lies in the image. It is in row `height - 1 - row(k)`, at the same column. |
| `FlipSpec.FlippedAt` | Source.cpp:556-568 | Byte `col` of row `row` of the flipped image is byte `col` of row `height - 1 - row` of the original. Columns keep their order, so there is no horizontal mirroring. |
| `FlipSpec.FlippedRow` | Source.cpp:556-568 | Row `r` of the flipped image equals row `height - 1 - r` of the original. Used with `r = j` and `r = height - 1 - j`, this says that both rows of each top-half pair are exchanged. |
| `FlipSpec.FlippedMiddleRow` | Source.cpp:556 | When the height is odd, the middle row `height / 2` is unchanged. |
| `FlipSpec.FlippedTail` | Source.cpp:558-561 | Bytes at or after the end of the image (`width * height * channels`) are unchanged. |
| `FlipSpec.FlippedDegenerate` | Source.cpp:556-561 | With `height <= 1` or `width * channels <= 0`, the buffer is unchanged. |
| `FlipSpec.FlippedTwice` | Source.cpp:556-568 | Flipping twice restores the original buffer. |
| `FlipSpec.FlippedKeepsBytes` | Source.cpp:563-565 | The flip is a permutation: the multiset of bytes is preserved. |
| `FlipSpec.FlippedReversesRows` | Source.cpp:556-568 | Reference view: the rows of the flipped image are the original rows in reverse order, and the bytes after the image are the original ones. |
| `FlipSpec.ProgressStart` | Source.cpp:556 | Before the first row pair, the buffer is as given. |
| `FlipSpec.ProgressSwapRow` | Source.cpp:558-568 | Exchanging row `j` with row `height - 1 - j` turns the buffer after `j` pairs into the buffer after `j + 1` pairs. |
| `FlipSpec.ProgressIdle` | Source.cpp:561 | When rows are empty or there are fewer than two, no stage of the loop changes anything. |
| `FlipSpec.ProgressComplete` | Source.cpp:556 | Stopping the outer loop at `height / 2` leaves the buffer flipped. For an odd height, the untouched middle row is its own mirror. |
| `FlipSpec.SwapBlocksStep` | Source.cpp:563-567 | One swap through `tmp`, followed by advancing both cursors, extends the two exchanged ranges by one byte. |
| `FlipSpec.SwapBlocksTwice` | Source.cpp:563-565 | Exchanging the same two ranges twice restores the buffer. |

## Left out

- Everything in `Source.cpp` other than `flipImageVertically` is not part of this model. That covers window and context setup, the render loop, shaders, mesh upload, texture loading, and the camera and input callbacks. These parts are graphics-library calls and single-precision float arithmetic.
- The C function receives a raw pointer and cannot know the buffer's size. The model uses a Dafny `array` and requires its length to be at least `width * height * channels` when the flip touches it.
- Signed `int` overflow is undefined behaviour in C, so the model does not wrap around. `Admissible` requires that the offsets and products the loops compute fit in an `int`, and the verifier checks every one of them.
- The inner `for` loop of the C function is a separate method, `SwapRows`, called once per row pair. It has the same cursors, guard and statements, and this keeps each proof small.
