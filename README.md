# glyphs: glyph atlas, text writer and frame pacer in Dafny

This project models the logic of `src/glyphs.c`, a small SDL program that draws
"hello, world!" with a TrueType font. The program has three parts:

- **The glyph atlas** (`font_init`, `font_build_atlas`, `font_glyph_create_texture`).
  This part allocates 256 zeroed glyph slots and a zeroed 2048-byte text buffer.
  For every byte value `i` it writes the C string `{i, '\0'}` into the buffer and
  points slot `i` at it. Every slot except slot 0 gets a texture, because slot 0's
  string is empty. Each slot records the size the font measures for its string.
- **The text writer** (`font_putchar`, `font_write`). It draws a NUL-terminated
  byte string one glyph at a time. Each glyph is as wide as its measured width
  and as high as the font. The cursor moves right by each glyph's width.
- **The frame pacer and the running loop of `main`**. Each iteration reads the
  clock. It then runs up to five catch-up passes, 33 ms each, and drains
  pending events in every pass. It clamps the last update time, renders once,
  and waits until 16 ms have passed since `last_render_time`, the startup
  reading, or 33 ms since the last update. A quit event, or Ctrl+Q, seen while draining jumps to the
  teardown of the textures.

Files and modules:

- `atlas.dfy` (module `Atlas`) holds the `Font` class with the fields of
  `font_data`. It holds the build as in-place methods over the two arrays,
  `PutChar` as a function, and `Write` and `Teardown` as loops. It also holds
  the lemmas about them.
- `pacer.dfy` (module `Pacer`) holds the pacer's loops as methods proved against
  the specification functions `CatchUpFrom`, `IdleFrom` and `Iterate`, and
  `Run`, the sequence of iterations the running loop goes through. It also
  holds the lemmas about those functions.
- `main_loop.dfy` (module `Glyphs`) holds one outer iteration (`Frame`), the
  `while (is_running)` loop proved to go through `Run` (`RunningLoop`), and
  `main` from startup to teardown (`MainLoop`).

The model replaces the program's inputs as follows:

- The font is an abstract line height and an abstract measurement function.
- A texture is only "present or absent".
- A draw is recorded as a slot and a destination rectangle.
- `SDL_GetTicks64` is a sequence of `uint64_t` readings consumed in order.
- The pending events are one batch per catch-up pass.
- Timestamps use explicit wrapping `uint64_t` subtraction and addition.

Four points of the code shape the model:

- **Empty string.** `font_write` is a do-while loop: it hands the first byte
  to `font_putchar` before any test for the terminator. For `'\0'`,
  `font_putchar` returns NULL, and `font_write` then reads `g->w` through it
  (src/glyphs.c:196-198, 212-217). So `Write` requires a non-zero first byte.
- **Buffer stride.** `text_next` advances by `sizeof *g->c + sizeof '\0'`
  (src/glyphs.c:230). That is five bytes, because `'\0'` is an `int` in C, so
  slot `i`'s C string starts at offset `5 * i` and the 256 strings end at
  offset 1276.
- **Abort guard.** The abort test compares the glyph count with the buffer's
  byte capacity, not the bytes used (src/glyphs.c:223). With the 2048-byte
  buffer of `font_init` it never fires, and every write stays in bounds.
  `GuardCountsGlyphsNotBytes` shows that for any capacity above 256 the guard
  lets all 256 glyphs through, while the strings fit only above 1276 bytes.
- **Render rate.** `last_render_time` is read once at startup
  (src/glyphs.c:76) and never assigned again. So once 16 ms have passed since
  startup, the idle wait's first test (src/glyphs.c:150) is false, the wait
  returns at once, and the loop renders on every iteration
  (`IdleEndsOnceStartIsPast`, `RunPacesUpdates`).

## Model

| member | source | states |
|---|---|---|
| `Atlas.StrLen` | src/glyphs.c:212-218 | the length of a C string is the index of its first NUL: every byte before it is non-zero |
| `Atlas.CStringOfPair` | src/glyphs.c:226-228 | the two bytes `{b, '\0'}` written at a view read back as the C string of `b`, which is empty for `b == 0` |
| `Atlas.GuardCountsGlyphsNotBytes` | src/glyphs.c:223-231 | for any buffer capacity above the glyph count, the abort guard (the test `BuildAtlas` runs) lets all 256 glyphs through; the C strings the build places at `5 * i` all fit iff the capacity is above 1276, so a capacity between 257 and 1276 is overrun without an abort |
| `Atlas.Font.Init` | src/glyphs.c:172-194 | `font_init` zeroes 256 slots and a 2048-byte buffer, then builds the atlas: the result is `Built()` (every slot built, every buffer byte outside the 256 two-byte strings still zero), with the given font height and measurement |
| `Atlas.Font.CreateTexture` | src/glyphs.c:240-246 | texture creation is skipped exactly when the view is NULL or its first byte is `'\0'`; otherwise the slot gets a texture; no other slot changes |
| `Atlas.Font.BuildAtlas` | src/glyphs.c:220-238 | after the build, `glyphs_len == text_buf_len == 256` and `text_next == 5 * 256`; slot `i`'s view is at offset `5 * i` and holds `{i, '\0'}`; slot `i` has a texture iff `i != 0`; its width and height are the font's measurement of its text; every other buffer byte (the three padding bytes after each string, and everything from offset 1280 on) keeps the zero calloc left; the abort never fires |
| `Atlas.Font.FillSlot` | src/glyphs.c:225-236 | one pass of the build loop writes `{i, '\0'}` at `text_next`, points slot `i` at it, gives it its texture and measured size, advances `text_next` by 5 and both counts by one, and changes no other slot or byte |
| `Atlas.BuiltSlotHoldsItsByte` | src/glyphs.c:222-236 | after a build, the C string at slot `i`'s view is `[i]` (empty for 0), its size is the font's measurement of that string, and it has a texture iff `i != 0` |
| `Atlas.BuiltBufferHoldsOnlyTheStrings` | src/glyphs.c:225-231 | after a build on the zeroed buffer of `font_init`, a non-zero byte of the text buffer is only ever the first byte of a view, at offset `5 * i` below 1280, and it equals `i`; terminators and padding are zero |
| `Atlas.PutCharDrawsItsByte` | src/glyphs.c:196-210 | `font_putchar` on `'\0'` draws nothing and returns no glyph; on any other byte it draws the textured glyph whose view holds that byte, at `dest`, with the byte's measured width and the font's height (not the glyph's) |
| `Atlas.Font.PutChar` | src/glyphs.c:196-210 | `font_putchar` draws nothing exactly for `'\0'`; otherwise it draws the slot indexed by the byte, at `dest`, as wide as that glyph and as high as the font |
| `Atlas.Font.Write` | src/glyphs.c:212-218 | on a C string with a non-zero first byte, `font_write` draws exactly one glyph per byte before the terminator, in order; the k-th is at `x0 +` the widths of bytes `0..k-1`, on row `y0`, as high as the font |
| `Atlas.LineIsContiguous` | src/glyphs.c:212-218 | in what `font_write` draws, the first glyph is at the start point, each next glyph starts where the previous one ends, and all share the start row |
| `Atlas.WriteABExample` | src/glyphs.c:212-218 | with widths 10 and 12, "AB" from (100, 100) draws 'A' at (100, 100) and 'B' at (110, 100); the cursor ends at 122 |
| `Atlas.Font.Teardown` | src/glyphs.c:159-162 | the teardown loop destroys, in ascending order, the slots among the first `glyphs_len` that hold a texture |
| `Atlas.TexturedSlotsExactlyOnce` | src/glyphs.c:159-162 | for any number of built slots, teardown destroys a slot iff it is among them and holds a texture, each exactly once, in ascending order |
| `Atlas.TexturedSlotsSkipZero` | src/glyphs.c:159-162 | when only slot 0 lacks a texture, tearing down the first `n` slots destroys slots `1 .. n-1` |
| `Atlas.BuiltTeardown` | src/glyphs.c:159-162 | after a full build, teardown destroys the 255 textures of slots 1 to 255 |
| `Atlas.SignedSlotOutOfRange` | src/glyphs.c:199 | as written, `(size_t)text` on a signed `char` indexes slot `b` for ASCII bytes, but for every byte from 0x80 up it indexes past the 256 slots (0xE9 gives 2^64 - 23) |
| `Pacer.Minus` | src/glyphs.c:108 | `uint64_t` subtraction is exact when the subtrahend is not larger, and wraps by 2^64 otherwise |
| `Pacer.Plus` | src/glyphs.c:135 | `uint64_t` addition is exact below 2^64 and wraps by 2^64 from there on |
| `Pacer.Drain` | src/glyphs.c:109-133 | draining a batch reports a loop end iff the batch holds a quit event or a `q` key press with Ctrl held |
| `Pacer.CatchUpLoop` | src/glyphs.c:106-137 | the catch-up loop computes `CatchUpFrom`: a quit at the first pass whose batch holds one, or the new last update time and the number of passes |
| `Pacer.CatchUpFacts` | src/glyphs.c:106-137 | catch-up runs at most 5 passes; each adds exactly 33 ms and none passes the clock; it stops early only with at most 33 ms left; a quit ends it at the first pass whose batch holds one |
| `Pacer.ClampFacts` | src/glyphs.c:139-141 | after the clamp the last update is at most 33 ms behind `now` (by the same wrapping subtraction); it is kept when it was within 33 ms, and otherwise lands exactly 33 ms behind |
| `Pacer.IdleWait` | src/glyphs.c:150-155 | the idle loop computes `IdleFrom`: the reading at which it stops waiting, or that it is still waiting when the readings run out |
| `Pacer.IdleFacts` | src/glyphs.c:150-155 | the idle wait exits at the first reading with `now - last_render_time >= 16` or `now - last_update_time >= 33`, and keeps waiting only while neither holds |
| `Pacer.IdleEndsOnceStartIsPast` | src/glyphs.c:150-155 | because `last_render_time` keeps its startup value, a reading 16 ms past startup ends the idle wait at once |
| `Pacer.IterationBounds` | src/glyphs.c:105-141 | in one iteration, a quit comes from the first pass with a quit event, before any render; otherwise at most 5 passes run, the last update is advanced 33 ms per pass or clamped to `now - 33`, and `0 <= now - last_update_time <= 33`, so the subtraction never wraps |
| `Pacer.StallIsClamped` | src/glyphs.c:106-141 | when the clock is ten ticks ahead and no quit is pending, five passes run, the last update is clamped to `now - 33`, and the iteration still renders |
| `Pacer.NoPassNoDrain` | src/glyphs.c:108-141 | with at most one tick elapsed no catch-up pass runs and no event is drained, so even a pending quit is not seen in that iteration |
| `Pacer.IterationKeepsOrder` | src/glyphs.c:105-155 | with a clock that never goes back, a rendered iteration keeps `last_render_time <= last_update_time <=` every later reading |
| `Pacer.RunStep` | src/glyphs.c:104-156 | the run of the loop from a reading is the iteration started there followed, unless it quits, by the run from the reading after its idle wait woke, with its clamped last update and the batches its catch-up passes left; every iteration takes at least one reading |
| `Pacer.RunStopsOnlyAtTheEnd` | src/glyphs.c:104-156 | in the run of the loop, every iteration but the last renders and wakes from its idle wait: only the last can quit or outlast the readings |
| `Pacer.RunPacesUpdates` | src/glyphs.c:104-156 | with a clock that never goes back, every rendered iteration of the run has `last_update_time <= now <= last_update_time + 33`, and every iteration whose reading is 16 ms past startup skips the idle wait |
| `Glyphs.GreetingLiteralText` | src/glyphs.c:146 | the literal "hello, world!" is a non-empty C string whose text is the 13 greeting bytes |
| `Glyphs.Frame` | src/glyphs.c:105-155 | one outer iteration computes `Pacer.Iterate`, the reference definition of an iteration (catch-up, clamp, idle wait from the readings and batches), and renders the greeting at (100, 100) exactly when it does not quit |
| `Glyphs.RunIteration` | src/glyphs.c:105-155 | the iteration starting at a reading is the head of the run from that reading; unless it quits, the rest of the run starts at the reading after its wake-up, with its clamped last update and the batches its passes left |
| `Glyphs.RunningLoop` | src/glyphs.c:104-156 | the `while (is_running)` loop's iterations are exactly `Pacer.Run` from the two startup readings; it reports a quit iff the last iteration quits, and every other iteration renders the greeting once |
| `Glyphs.MainLoop` | src/glyphs.c:75-162 | `main` from startup: the iterations are `Pacer.Run`; only the last one may quit or run out of readings; every iteration but a quitting last one renders the greeting once; a quit leads to the teardown of the 255 textures, and no quit to none; with a clock that never goes back, every rendered iteration has `0 <= now - last_update_time <= 33`, and once 16 ms have passed since startup no iteration idles |

## Findings

| source | as written | input that shows it | evidently intended | confidence | as-written member | corrected member |
|---|---|---|---|---|---|---|
| src/glyphs.c:199 | `font_putchar` indexes `glyphs[(size_t)text]` with a plain `char`; where `char` is signed, bytes 0x80 to 0xFF are negative and convert to indices near 2^64 | byte 0xE9 gives index 2^64 - 23, past the 256 slots | read the byte as `unsigned char`, so that every non-zero byte draws the glyph built from it, as the atlas has a slot for each of the 256 values | medium: only where `char` is signed (as on x86), not where it is unsigned; not executed | `Atlas.SignedSlotOutOfRange` | `Atlas.PutCharDrawsItsByte` |

`Font.PutChar`, and with it the rest of the model, indexes by the byte read as
`unsigned char`. For bytes 1 to 127 this is the same as the code.

## Left out

- Window, renderer, SDL and TTF initialisation and shutdown, and the argument and font-open checks (src/glyphs.c:63, 86-98, 165-168): process plumbing with no logic of its own.
- The two `abort()` calls on a failed `calloc` (src/glyphs.c:187, 190): allocation is assumed to succeed.
- The two `free` calls after the teardown (src/glyphs.c:163-164): memory release is not modelled.
- `TTF_RenderUTF8_Blended`, `SDL_CreateTextureFromSurface` and `SDL_FreeSurface`: a texture is a presence flag, and creating one is assumed to succeed.
- `TTF_SizeUTF8` and `TTF_FontHeight`: these are the abstract `Measure` function and the height given to `Init`.
- `SDL_RenderCopy`, `SDL_RenderClear` and `SDL_RenderPresent`: only the copies are recorded, as `Draw` values in order.
- `SDL_GetTicks64`, `SDL_PollEvent` and `SDL_GetModState`: these are supplied readings and event batches. A key press carries the Ctrl state that `SDL_GetModState` reports when the event is handled.
- `SDL_Delay(0)` in the idle loop: the yield has no observable effect in the model.
- `SP_HERTZ` and its floating-point division: the model uses the resulting constant 33.
- The function pointers `putchar` and `write` in `struct font`: the model calls the functions directly.
- Whether bytes from 0x80 up are valid UTF-8 for the rasteriser: the rasteriser is outside the model.
- `sizeof(int)` is taken to be 4, which makes the stride 5 bytes.
- Atlas.Font.Write: `point.x` is an unbounded integer, so `int` overflow of the cursor is not modelled.
- Pacer.IdleWait: with a finite reading sequence, the wait can end as `StillWaiting`; the real loop keeps reading the clock.
- Glyphs.MainLoop: it stops without a teardown when the readings run out; the real loop runs until a quit.
