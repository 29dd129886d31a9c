# Mandelbrot renderer: aggregation and image fill

This project models the sequential parts of the renderer's `src/main.rs`:

- the **aggregator** loop of `generate`. It drains the `(index, colour)` messages that the worker
  threads send, counts them in a `u32` counter `pos`, and asks the progress bar for a tick whenever
  `pos` is a multiple of `width*height/100`. Then it writes the colour into the output buffer at
  that index. Here the channel is a finite sequence of messages in arrival order, already complete.
  The progress bar is reduced to its tick count.
- the **buffer allocation** of `main`: `width*height` zero words.
- the **image fill** of `main`. Pixel `(x, y)` reads the packed word at the row-major offset
  `y*width + x` and splits it into red (bits 0-7), green (bits 8-15) and blue (bits 16-23).
  Bits 24-31 are ignored.

Modules:

- `Unsigned` (`unsigned.dfy`): the `u32` range.
- `PackedColour` (`packed_colour.dfy`): `Decode` (the masking and shifting on a `bv32`) and its
  inverse `Pack`, with the round trips.
- `Aggregator` (`aggregator.dfy`): the drain loop as the method `Drain` over an `array<bv32>`.
  It is specified by the sequence function `Apply` (the writes in order) and by `Ticks`, and
  lemmas cover both.
- `ImageFill` (`image_fill.dfy`): the row-major index, the zeroed buffer and the fill loop over
  an `array2<Rgb>` indexed `img[x, y]`.
- `Render` (`render.dfy`): `main`'s sequence of allocate, drain and fill.

In a debug build the drain loop can panic in three ways, and the model treats each as an error outcome rather than
a precondition:

- `pos += 1` overflows the `u32` counter after 2^32 - 1 messages (a debug-build check; see
  "## Left out" for release builds).
- `pos % (width*height/100)` divides by zero when `width*height < 100`. That happens on the first
  message.
- `out[i]` is out of bounds.

The checks come in the order the loop body has them, and so do their side effects. The counter
is incremented before the remainder. The tick comes before the write. A panicking message
therefore leaves the buffer holding exactly the earlier messages' writes.

What the code itself shows about these parts:

- `ProgressBar::new(100)` (src/main.rs:41) expects 100 ticks, but line 52 ticks at every multiple
  of `width*height/100`. A full run therefore ticks `100 + (width*height % 100) / step` times,
  which is more than 100 exactly when `width*height % 100` is at least the step (`FullRunTicks`).
  That needs a step below 100, so it can only happen below 10 000 pixels: 199 pixels tick 199
  times, while 200 pixels tick exactly 100 times.
- An image under 100 pixels has a step of zero and panics on its first message
  (`RemainderByZero`).
- The drain loop does not check that each slot is written once. The model states what it does for
  any stream: the last write to a slot wins, and slots never named keep their zeros. When the
  indices are distinct, the result does not depend on arrival order. A stream of `width*height`
  distinct, in-bounds indices writes every slot exactly once (`CompleteStream`).

## Model

| member | source | states |
|---|---|---|
| `PackedColour.Decode` | src/main.rs:162-168 | red, green and blue are the lowest three base-256 digits of the packed word |
| `PackedColour.Pack` | src/main.rs:164-168 | the packing that the decoder inverts has the top byte clear and equals r + 256*g + 65536*b with no wrap-around |
| `PackedColour.DecodePack` | src/main.rs:164-168 | decoding a packed (r, g, b) gives back (r, g, b) |
| `PackedColour.PackDecode` | src/main.rs:164-168 | repacking a decoded word gives the word with bits 24-31 cleared |
| `PackedColour.DecodeIgnoresTopByte` | src/main.rs:164-168 | two words decode to the same pixel if and only if they agree on bits 0-23 |
| `Aggregator.TickStep` | src/main.rs:52 | the progress step is zero exactly when width*height < 100, and it is the floor of width*height/100 |
| `Aggregator.Apply` | src/main.rs:50-56 | writing the messages in order never changes the buffer length |
| `Aggregator.Drain` | src/main.rs:49-56 | the loop finishes exactly when the stream is safe, and then pos is the message count, the ticks are Ticks(n, step) and the buffer is Apply(old buffer, messages); otherwise it stops at the first faulty message, with that panic, and the buffer holds only the earlier writes |
| `Aggregator.SafeIffNoFault` | src/main.rs:51-55 | a stream is safe (a non-zero step, fewer than 2^32 messages, every index in bounds) if and only if no message faults, where `Fault` makes the loop body's three checks in its order: counter overflow, remainder by zero, index out of bounds |
| `Aggregator.ApplyUnnamed` | src/main.rs:55 | a slot that no message names keeps its prior value |
| `Aggregator.ApplyLastWrite` | src/main.rs:50-56 | a slot holds the colour of the last message naming it |
| `Aggregator.ApplyDistinctAt` | src/main.rs:50-56 | with distinct indices, each message's colour ends up in its slot |
| `Aggregator.DistinctIndicesPermutation` | src/main.rs:50-56 | any reordering of a stream with distinct, in-bounds indices keeps both properties |
| `Aggregator.ApplyPermutation` | src/main.rs:50-56 | with distinct indices, every reordering of the stream gives the same final buffer |
| `Aggregator.ApplyCovering` | src/main.rs:50-56 | when every slot is named, the final buffer does not depend on its prior contents |
| `Aggregator.CompleteStream` | src/main.rs:50-56 | a stream of width*height messages with distinct, in-bounds indices names every slot, so each slot is written exactly once and the result does not depend on the zero placeholders |
| `Aggregator.TicksIsQuotient` | src/main.rs:49-54 | after n messages the tick count `Ticks` (one `pb.inc()` for each multiple of step in 1..n, lines 52-53) is n / step |
| `Aggregator.FullRunTicks` | src/main.rs:41-54 | a full run of width*height messages ticks 100 + (width*height % 100) / step times: at least the bar's 100, and exactly 100 if and only if the remainder is below the step |
| `ImageFill.PixelIndex` | src/main.rs:165-168 | the offset y*width + x of an in-range pixel is inside the width*height buffer, with quotient y and remainder x by width |
| `ImageFill.PixelIndexInjective` | src/main.rs:164-168 | two pixels share a slot if and only if they are the same pixel |
| `ImageFill.PixelIndexOnto` | src/main.rs:162-168 | every slot of the buffer is read by the pixel (i % width, i / width) |
| `ImageFill.NewBuffer` | src/main.rs:155 | the fresh buffer has width*height slots, all zero |
| `ImageFill.FillImage` | src/main.rs:160-170 | the image is width by height, and every pixel is the decoded word of its row-major slot |
| `Render.Render` | src/main.rs:155-170 | an image is produced exactly when the drain finishes, and then each pixel is the decoded colour of its slot after the messages are applied to the zero buffer |

## Left out

- Worker threads, the `Arc<Mutex<u32>>` line counter and the `mpsc` channel (src/main.rs:27-39) are concurrency. The received stream is a finite sequence, already drained, in one arrival order.
- `mandelbrot::mandelbrot`, `Options` and the escape-time kernel, palette, tint and row dispatcher live in the `mandelbrot` library crate. That crate is not part of this model. The message index type comes from that crate and is modelled as a natural number.
- The `f32` viewport fields and the colour, iteration and sample settings are floating point or only passed through to the kernel.
- Argument parsing (src/main.rs:81-153) is command-line glue.
- Progress-bar display flags, `pb.finish_print`, `println!` and the `Instant` timing are output side effects. Only the tick count is kept.
- `ImageBuffer::new`'s own allocation checks, `img.save` and its error message (src/main.rs:172-174) are file I/O in the `image` crate. The image is a plain 2-D array of RGB triples.
- Drain, TickStep and Render: require that width*height fit in a u32, rather than modelling the multiplication's overflow. `main` has already computed the same product at line 155.
- Drain: models the debug-build overflow panic of `pos += 1` (src/main.rs:51). A release build wraps `pos` to 0 after 2^32 - 1 messages, fires a tick and still writes; a stream of width*height < 2^32 messages never reaches that point.
- NewBuffer: requires that width*height fit in a u32, rather than modelling the debug-build overflow panic or the release-build wrap-around of line 155.
