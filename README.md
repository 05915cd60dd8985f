# vt10x input ingestion and grid copies, in Dafny

This project models two parts of the vt10x terminal emulator and proves properties of them.

**The ingestion layer of `vt_posix.go`.** `terminal.Write` turns the bytes written to a
terminal into runes, each handed to the interpreter through `put`:
- it decodes them with a `bytes.Reader`, whose `ReadRune` follows `utf8.DecodeRune` (UTF-8 as
  in RFC 3629, sections 3 and 4);
- a one-byte `RuneError` (U+FFFD of size 1) is counted and reported, unless it is the last byte,
  which is withheld from the count;
- every other rune is counted and put.

`terminal.WriteWithChanges` runs the same loop. It also records the cursor row before every
`put`, and the row after it when that differs. It returns those rows through `uniqueSorted`,
which makes an ascending list of a map's keys.

**The grid builders of the buffer-copy benchmarks in `state_test.go`.**
- `generateSrc` builds a rows × cols grid of random ASCII glyphs.
- There are two `copyBuffer` closures. Both copy a possibly ragged source into a fresh
  rows × cols buffer, leaving zero glyphs where the source has no cell.
- One allocates every row on its own. The other cuts every row out of one flat backing array
  and fills it with Go's `copy`.

Modules:
- `Utf8` (`utf8.dfy`): `DecodeRune`, `FullRune` and the encoder, with the round trips between
  them.
- `Reader` (`reader.dfy`): `bytes.Reader` as a class. Its fields are the slice, the read offset
  and `prevRune`. `Tokens` is the sequence of results `ReadRune` yields.
- `Ingestion` (`ingest.dfy`): what `Write` does, as values.
  - `Ingest` is its loop over the reader's tokens; `WriteFrom` is the same loop over reader
    offsets, and the two are proved equal.
  - `Buffered` is the behaviour the code evidently intends (see Findings).
- `Terminal` (`terminal.dfy`): `uniqueSorted`, an in-place sort standing for `slices.Sort`,
  and a class `Terminal`.
  - `Write`, `WriteWithChanges` and a corrected `WriteBuffered` are proved against `Ingest` and
    `Buffered`.
  - The interpreter behind `put` is abstract: its state has an arbitrary type `S`, `put`
    changes it by an arbitrary function `step`, and the cursor row is an arbitrary function
    `row` of it. Every result holds for any interpreter.
  - The ghost fields `log` and `warned` record the runes put and the `logln` calls.
- `Grid` (`grid.dfy`): `Glyph`, a Go slice as a window (`Slice`) onto an `array`,
  `GenerateSrc`, Go's `copy`, and the two `copyBuffer` closures. Both closures are proved to
  build the same grid.

## Model

| member | source | states |
|---|---|---|
| Terminal.Terminal.Write | vt_posix.go:34-59 | The error is always nil. The count is `Ingest(p).written`. The runes reaching `put` are exactly `Ingest(p).runes`, in order, and the interpreter state is `step` run over them. `logln` is called `Ingest(p).warnings` times. |
| Terminal.Terminal.WriteWithChanges | vt_posix.go:62-101 | The runes put, the final state and the warnings are exactly those of `Write` on the same input. The returned rows are strictly increasing and are exactly the set `Dirty` of rows marked around each `put`. The error is always nil. |
| Terminal.UniqueSorted | vt_posix.go:103-114 | The result is strictly increasing, holds exactly the keys of the map, and is as long as the map. |
| Terminal.Sort | vt_posix.go:112 | The array ends sorted and is a permutation of its old contents. |
| Terminal.Terminal.Apply | vt_posix.go:48-56 | A one-byte `RuneError` is warned about and not put; any other rune is put. The outcome so far grows by `Absorb`, and the log, state and warning count keep up with it. |
| Terminal.Terminal.ApplyMarking | vt_posix.go:78-93 | As `Apply`, and the dirty map becomes `Marked` of the runes put so far. |
| Terminal.Terminal.Put | vt_posix.go:56 | `put` advances the abstract state by `step` and appends the rune to the log. |
| Terminal.MarkedKeys | vt_posix.go:90-93 | The keys of the map the loop builds are exactly the set `Dirty`. |
| Terminal.MarkedSnoc | vt_posix.go:86-93 | One more `put` marks the row before it, and the row after it only when that differs. |
| Terminal.DirtyIsVisited | vt_posix.go:86-97 | The dirty rows are every row the cursor occupied during the call, the starting row included, when something was put, and no row otherwise. `prevRow` plays no part. |
| Terminal.Terminal.WriteBuffered | vt_posix.go:47-51 | The corrected `Write` reads only while a full rune is left. It counts `Buffered(p).written`, puts `Buffered(p).runes` and warns `Buffered(p).warnings` times. |
| Reader.BytesReader.constructor | vt_posix.go:36 | `bytes.NewReader` starts at offset 0 of the slice, with no rune read. |
| Reader.BytesReader.ReadRune | vt_posix.go:40 | At the end of the slice: `(0, 0, io.EOF)`, position unchanged. Otherwise: no error, the result is `DecodeRune` of the unread bytes, and the offset advances by its size (1 to 4), staying within the slice. |
| Reader.BytesReader.Len | vt_posix.go:49 | `Len` is 0 exactly when every byte has been read. Otherwise it is the number of unread bytes. |
| Reader.TokensEmpty | vt_posix.go:40-44 | The reader yields no rune before `io.EOF` exactly when the input is empty. |
| Ingestion.TokensCover | vt_posix.go:40-47 | The sizes of the runes the reader yields add up to the length of the input, each between 1 and 4. |
| Utf8.DecodeRune | vt_posix.go:40 | Empty input gives `(RuneError, 0)`. Otherwise the size is 1 to 4 and never exceeds the input. A valid result is a scalar value whose encoded length is the size. An ASCII byte decodes to itself. |
| Utf8.DecodeEncode | vt_posix.go:40 | Decoding the encoding of any scalar value gives it back with the encoding's length, whatever bytes follow. |
| Utf8.EncodeDecode | vt_posix.go:40 | Every valid decoding is the canonical encoding of the rune it yields, so no overlong form or surrogate is accepted. |
| Utf8.FullRuneStable | vt_posix.go:47-51 | Bytes that start with a full rune decode the same whatever is appended. |
| Utf8.NotFullRuneInvalid | vt_posix.go:48-51 | A non-empty prefix that is not a full rune decodes as a one-byte `RuneError`. |
| Utf8.TruncatedNotFull | vt_posix.go:47-51 | A proper non-empty prefix of an encoding is never a full rune. |
| Utf8.ContinuationInvalid | vt_posix.go:48 | A stray continuation byte decodes as a one-byte `RuneError` and is a full rune. |
| Utf8.NotFullIsPrefix | vt_posix.go:157 | The converse of `TruncatedNotFull`: a non-empty sequence that `utf8.FullRune` rejects is a proper prefix of some scalar value's encoding, so more bytes can still complete it. |
| Utf8.FullRuneIff | vt_posix.go:157 | `utf8.FullRune` is false exactly for the empty sequence and for the proper, non-empty prefixes of encodings. It is true for every complete rune and for every sequence that is already invalid whatever follows. |
| Ingestion.IngestCons | vt_posix.go:39-58 | The loop by its first decoded rune: a lone invalid last byte gives nothing. Otherwise the first rune's branch is followed by the outcome of the rest. |
| Ingestion.ConsumeFrom | vt_posix.go:39-58 | Running the loop from an accumulated outcome adds that outcome to what the loop makes from nothing. |
| Ingestion.WriteFromConsume | vt_posix.go:39-57 | The loop over reader offsets equals the loop over the tokens still to come. |
| Ingestion.WriteFromStart | vt_posix.go:34-59 | Started at the first byte, the loop over reader offsets computes `Ingest`. |
| Ingestion.IngestMatchesTokens | vt_posix.go:39-58 | The runes put are exactly the valid tokens, in order. The count is the input length, minus 1 when the last token is a one-byte `RuneError`. The warnings are the invalid tokens, less that last one. |
| Ingestion.WrittenBounds | vt_posix.go:39-58 | `Write` returns `len(p)` or `len(p)-1`. It returns `len(p)-1` exactly when `p` is non-empty and ends in a one-byte `RuneError`. |
| Ingestion.IngestEncoded | vt_posix.go:48-56 | Any encoded scalar value at the front is put and counted in full, including a 3-byte U+FFFD. |
| Ingestion.IngestText | vt_posix.go:39-58 | Well-formed text is counted completely and puts all its runes in order, with no warning. |
| Ingestion.IngestContinuations | vt_posix.go:48-54 | A run of continuation bytes puts nothing. Every byte but the last is counted, each with a warning. |
| Ingestion.IngestTruncated | vt_posix.go:47-51 | A truncated encoding is withheld only in part: its earlier bytes are counted and warned about, and only its last byte is left uncounted. |
| Ingestion.AsWrittenSplitLoses | vt_posix.go:47-51 | A rune written in two parts, split after its second byte or later, never reaches `put` if the unconsumed bytes are resubmitted with the rest, although the whole input holds it. |
| Ingestion.BufferedWithholds | vt_posix.go:47-51 | The corrected ingestion withholds a truncated trailing rune in full and warns about nothing. |
| Ingestion.BufferedSplit | vt_posix.go:47-51 | With the corrected ingestion, splitting the input anywhere and resubmitting the unconsumed bytes in front of the rest gives the same count, runes and warnings as one write. It never counts more than the input. |
| Ingestion.BufferedEncoded | vt_posix.go:47-56 | The corrected ingestion puts and counts a complete encoded rune at the front, like `Write`. |
| Ingestion.BufferedText | vt_posix.go:39-58 | On well-formed text the corrected ingestion agrees with `Write`. |
| Ingestion.BufferedFromCombine | vt_posix.go:47-51 | The corrected loop over reader offsets, run from an accumulated outcome, adds `Buffered` of the unread bytes to it. |
| Ingestion.BufferedFromStart | vt_posix.go:47-51 | Started at the first byte, that loop computes `Buffered`. |
| Ingestion.BufferedLeavesPrefix | vt_posix.go:47-51 | The corrected ingestion leaves unconsumed only bytes that more input can complete: nothing, or a proper non-empty prefix of an encoding. It never holds back bytes that are invalid whatever follows. |
| Ingestion.InvalidLastByte | vt_posix.go:47-53 | For any bytes `q` followed by a byte that never appears in UTF-8 (C0, C1, F5 to FF), `Write` counts all of `q` and withholds that last byte, uncounted and unreported. The corrected ingestion counts it too and warns about it once. Both put the same runes, those of the valid tokens of `q`, and give `q` the same warnings. |
| Ingestion.BufferedBeforeNever | vt_posix.go:47-53 | The corrected ingestion of `q` followed by such a byte consumes everything: it puts the valid tokens of `q` and warns about each invalid token, that last byte included. |
| Reader.TokensBeforeNever | vt_posix.go:40-44 | Appending a byte that never appears in UTF-8 leaves the reader's tokens for `q` unchanged and adds one one-byte `RuneError`. |
| Utf8.DecodeBeforeNever | vt_posix.go:40 | A byte that never appears in UTF-8 cannot complete or extend a sequence: appending it does not change how a non-empty input decodes. |
| Utf8.FullRuneBeforeNever | vt_posix.go:157 | Any input that ends in such a byte begins with a full rune. |
| Grid.GenerateSrc | state_test.go:306-315 | The result is a fresh grid of exactly `rows` distinct fresh rows, each of `cols` glyphs, every glyph with `Char` in [0, 128). |
| Grid.GeneratedIsFull | state_test.go:306-315 | A generated grid has no ragged row, so either copy reproduces it exactly. |
| Grid.CopyBufferOriginal | state_test.go:324-335 | The result is `rows` distinct fresh rows. Cell (y, x) is `src[y][x]` where the source has it and the zero glyph elsewhere. |
| Grid.Copy | state_test.go:359 | Go's `copy` writes `min(len(dst), len(src))` elements at the front of the destination window and leaves every other cell of the backing array unchanged. |
| Grid.CutRow | state_test.go:355-361 | Row y is the window `[y*cols, (y+1)*cols)` of `flat`. After the copy, rows 0..y hold their cells and the rest of `flat` is still zero. |
| Grid.CopyBufferFlat | state_test.go:351-364 | The result has `rows` windows onto one fresh backing array of `rows*cols` glyphs. Row y is the window at `y*cols` of width `cols`. It holds the first `min(cols, len(src[y]))` source cells and zeros after them, which is the original copy's row. |
| Grid.RowStartIsProduct | state_test.go:356 | Row y starts at offset `y*cols`. |
| Grid.RowsOrdered | state_test.go:356 | Rows follow each other without overlap, so the windows are pairwise disjoint. |
| Grid.FlatRowIsCopiedRow | state_test.go:324-364 | The two closures build the same row from the same source, width and row index. |
| Grid.CopiedRowPrefix | state_test.go:329-331 | A copied row starts with the source row's first `min(cols, len(src[y]))` cells and is zero after them. |
| Grid.CopyOfFullGrid | state_test.go:329-331 | A source whose rows all have `cols` cells is copied unchanged. |

## Left out

- `Parse` and `fullRuneBuffered` (vt_posix.go:117-158) are not modelled. They read from a buffered stream that may block, and they take the lock lazily: this is I/O and concurrency.
- `lock`, `unlock` and the deferred unlock are not modelled; every call is single-threaded.
- `logln` is an external sink; only the number of calls is kept, as the ghost counter `warned`.
- `newTerminal`, `init` and `Resize` only delegate to the interpreter, which is not part of this model.
- The `State` interpreter (`put`, the cursor, the screens) is not part of this model. `put` is an arbitrary state transition and the cursor row an arbitrary function of the state.
- The benchmark harness (`b.ResetTimer`, `b.Loop`) is a timing concern and is left out.
- `rand.Intn(128)` in `generateSrc` is an arbitrary choice in [0, 128). No pseudo-random generator is modelled.
- `unicode/utf8`, `bytes` and `slices` are not part of this model. `DecodeRune`, `FullRune`, `bytes.Reader` and `slices.Sort` are written from their documented behaviour. The sort used is an insertion sort.
- `Reader.BytesReader.ReadRune`: the failure error of a general `io.Reader` cannot occur for an in-memory reader. The error branch of both write loops is kept and proved unreachable.
- `prevRow` in `WriteWithChanges` is kept as written. It is dead: no result depends on it.
- `Terminal.Terminal.Apply` and `Terminal.Terminal.ApplyMarking`: the per-rune branch of each write loop is a method of its own. In `Write` the `continue` after a warning becomes the early return of `Apply`, since nothing follows `put` in that loop. In `WriteWithChanges` the loop itself keeps the `continue`, so the `prevRow` update is skipped after a warning, as in the source.
- The flat `copyBuffer` returns a `[][]Glyph` of slice headers. Its outer slice is modelled as a sequence of `Slice` values over the shared backing `array`.
- `copyBuffer` receives `src` as a sequence of rows (values). The aliasing of the caller's lines is not modelled.
- `Glyph`'s `Mode`, `FG` and `BG` are plain integers; the colour and attribute types are not part of this model.

## Findings

| source | as written | input that shows it | evidently intended | confidence | as-written member | corrected member |
|---|---|---|---|---|---|---|
| vt_posix.go:47-51 | A truncated multi-byte sequence at the end of `p` is withheld only by its last byte. Each earlier byte decodes as a one-byte `RuneError`, is counted and is logged as invalid. | `E2 82`, then `82 AC` resubmitted: the first write returns 1 and warns about `E2`, and the second puts nothing, so `€` (`E2 82 AC`) is lost | Withhold every byte of an incomplete trailing rune ("not enough bytes for a full rune"), so that resubmitting them with what follows completes it. A last byte that never appears in UTF-8 (C0, C1, F5 to FF) is also withheld as written, as if it might begin a rune. The correction counts it and warns about it at once (`Ingestion.InvalidLastByte`) | not executed | Ingestion.AsWrittenSplitLoses | Ingestion.BufferedSplit |
