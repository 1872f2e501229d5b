# libgfx and the QEMU suite helpers of OS01, in Dafny

This project models the hard core of OS01's 2D graphics library `libgfx` and of four algorithms in its QEMU test
tooling, and proves what they promise.

**The rasteriser.** A handle owns a W x H buffer of 32-bit words and a clip rectangle. A picture is a value,
`Images.Image`, with `At(x, y)`; the handle's picture is `Handle.Picture()`. Every drawing call of the library is a
method on the handle whose postcondition gives the whole picture afterwards as a function of the old one.

- Calls that want a word per pixel (fills, lines along an axis, sprites, masks, glyphs) are an `Inks.Call`: a requested
  rectangle and an ink. `Canvas.Drawn` is the picture after such a call under a clip.
- `Scroll.Scrolled` is the picture after a scroll: each pixel of clip-and-view holds the old word at the shifted place,
  or the fill colour.
- `Packing` lays out pictures of words and bits in byte-strided memory and says what a blit or glyph of them draws.
- `Lines.LineDrawn` is the picture after a line; its pixels are given by the clip (`LineClip.Clip`) and the closed form
  of the walk (`Bresenham.Track`). What that means for the real segment is proved in `Rendering`; which lines can be
  drawn in pieces is proved in `LineTiling`.

C integers are subset types of `int` (`Machine`), so that every assignment has to fit. Casts that truncate, the
saturation of the clip arithmetic and the wrap-around of subscripts are written out. The doubles of `gfx_line` are
exact reals.

**The tooling.** The register-provenance walk of the interrupt dispatch audit is proved to list exactly the edges of the
runs of a small machine (`Dataflow`). The interval merge of the direct-map evidence check is proved canonical (`Intervals`). The scheduler and
the port allocator of the suite matrix are proved over all histories and all runs (`Matrix`, `Ports`), including runs
that an exception ends. The PPM parser is
proved against a grammar of its files, comments and errors included, and to be the inverse of the printer (`Ppm`,
`PpmGrammar`, `PyInts`).

`dafny verify dfyconfig.toml` checks the project.

## Where an expected property does not always hold

For each of these a lemma says exactly when the code has the property, and names or constructs an input for which it
does not.

- `intersect_rect` clamps a width to INT32_MAX, so request against clip and then against the view is not always the
  intersection, although a comment calls it exact (`Rects.ClampLosesEverything`, `Rects.TwoStepExact`).
- `gfx__pixel_impl` compares low coordinates only with the clip origin; under a clip with a negative origin a pixel
  left of the view lands in the row above (`Pixels.NegativeColumnWraps`, `Pixels.ClipRightForPixels`).
- `gfx__rect_impl` converts dimensions to `int32_t`; a very tall outline draws a stray row
  (`Outlines.TallOutlineStrays`, `Outlines.OutlineExact`).
- The doubled error term of the line walk does not fit `int32_t` for every line. It does for a line if and only if its
  smaller extent plus the largest multiple of the extents' greatest common divisor below half the larger extent is at
  most 2^30 - 1 (`ErrorTerm.LineFitsExactly`). A view three rows high already has a line that overflows
  (`Lines.ThinViewLineUnsafe`); no view whose width, height and smaller side add up to at most 2^31 + 3 has one
  (`Lines.SmallAreaSafe`).
- A smaller clip does not always just cut pixels off a line: the moved endpoint is rounded, and the rest of the line
  shifts (`LineTiling.ShiftedLine`). Of the lines between pixels of the view, exactly the horizontal, vertical and
  diagonal ones are the same under every clip (`LineTiling.ConsistentExactly`).
- Two scrolls are one scroll by the sum only when nothing that was pushed out would have come back
  (`Scroll.ScrollTwiceExactly`).
- The suite matrix returns 0 although a task was killed by a signal (`Matrix.RunKilledTask`); its code tells success
  from failure if and only if some task code is positive or none is negative (`Matrix.ZeroMeansSuccess`).
- The PPM parser accepts a file with two negative sizes (`PpmGrammar.NegativeSizesAccepted`); a size of an accepted file is
  negative if and only if its token begins with a minus sign and has a digit other than 0 (`Ppm.AcceptedSizes`).

Where comments and code disagree in smaller ways, the model follows the code: `gfx_scroll` compares shifts with the
size of the visible area, while the header says the clip size.

## Model

| member | source | states |
|---|---|---|
| `Rects.IntersectRect` | libgfx/line.c:59-111 | the statements compute the saturated, clamped overlap without leaving int32/uint32/int64; sprite.c:45-78 is the same text |
| `Rects.DirectClipExact` | libgfx/line.c:317-323 | clip against view is the true intersection, for every clip |
| `Rects.TwoStepNeverAdds` | libgfx/line.c:254-263 | the two-step clip never lets through a pixel outside request, clip or view |
| `Rects.TwoStepExact` | libgfx/line.c:254-263 | the two-step clip is the true intersection if and only if the clamp cuts off no visible column or row |
| `Rects.OrdinaryClipsAreExact` | libgfx/line.c:102-105 | exact when on each axis an origin is not negative or the overlap is at most INT32_MAX |
| `Rects.ClampLosesEverything` | libgfx/line.c:104-105 | request and clip covering all coordinates draw nothing |
| `Rects.TwoStepEmpty` | libgfx/line.c:254-263 | nothing is left if and only if on some axis the clamped overlap misses the view |
| `Rects.InnerRectUnclipped` | libgfx/sprite.c:292-304 | a rectangle inside clip-and-view passes both steps unchanged |
| `Canvas.Handle.constructor` | libgfx/gfx.c:89-113 | a new handle has W*H zero words and the view as clip |
| `Canvas.Handle.SetClip` | libgfx/gfx.c:143-162 | any clip is accepted and nothing is drawn |
| `Canvas.ClipToView` | libgfx/line.c:252-264 | both intersections in sequence yield the drawn region |
| `Canvas.FillRect` | libgfx/line.c:246-273 | the picture is the old one with the region in the colour |
| `Canvas.HLine` | libgfx/line.c:162-187 | the same for a request one row high |
| `Canvas.VLine` | libgfx/line.c:189-213 | the same for a request one column wide |
| `Outlines.RectOutline` | libgfx/line.c:216-244 | the picture after the up to four line calls, in their order, with int32 coordinates |
| `Outlines.SolidEdges` | libgfx/line.c:227-243 | the calls colour exactly the pixels that one of them reaches |
| `Outlines.StraightEdgesPartition` | libgfx/line.c:220-233 | when no coordinate wraps, each outline pixel is in exactly one of the calls and no other pixel is in any |
| `Outlines.OutlineExact` | libgfx/line.c:234-243 | exactly the visible outline is coloured if and only if each straight edge is clipped exactly and each wrapped one misses clip or view on an axis |
| `Outlines.OrdinaryOutlinesFit` | libgfx/line.c:234-243 | dimensions up to INT32_MAX with far edges in int32 are enough |
| `Outlines.TallOutlineStrays` | libgfx/line.c:235-237 | an outline of height UINT32_MAX from row 10 colours row 8 |
| `Pixels.Pixel` | libgfx/line.c:114-159 | the one word written, subscript in size_t arithmetic; for non-negative coordinates a 1 x 1 fill |
| `Pixels.PixelRight` | libgfx/line.c:129-158 | a call writes the right word or rightly none if and only if it is not let through with a negative coordinate |
| `Pixels.ClipRightForPixels` | libgfx/line.c:129-158 | all calls under a clip are right if and only if the clip is empty or has no reachable negative part |
| `Pixels.NegativeColumnWraps` | libgfx/line.c:132-158 | pixel (-1, 1) under a clip from column -1 overwrites the last pixel of row 0 |
| `Sprites.ReadWord` | libgfx/sprite.c:125-131 | the RGB32 value at any byte stride, every byte read inside the declared size |
| `Sprites.ReadBit` | libgfx/sprite.c:183-189 | the shifted test is the MSB-first mask bit, the byte read inside the declared rows |
| `Sprites.SpriteBlit` | libgfx/sprite.c:81-138 | the picture after an opaque or colour-key blit, or unchanged for refused arguments |
| `Sprites.SpriteBlitMask` | libgfx/sprite.c:141-194 | the picture after a mask blit, or unchanged for refused arguments |
| `Packing.PackedWord` | libgfx/sprite.c:125-131 | read out of memory that holds a picture low byte first, row 0 first, at any stride, the word at (x, y) is the picture's |
| `Packing.PackedBit` | libgfx/sprite.c:183-189 | read out of mask memory whose rows start at bit 7 of a byte, for every width, height and stride, the bit at (x, y) is the picture's |
| `Packing.PackedSpriteDrawn` | libgfx/sprite.c:81-138 | a blit of a packed picture is accepted and leaves word (sx, sy) at each drawn pixel (dx+sx, dy+sy) where it is not the key, and all else unchanged |
| `Packing.PackedMaskDrawn` | libgfx/sprite.c:141-194 | a masked blit of a packed picture leaves exactly the words whose bit is set |
| `Packing.PackedGlyphDrawn` | libgfx/sprite.c:197-283 | a glyph of packed bits leaves the foreground where the bit is set and else the background, if that is opaque |
| `Packing.BlitArgsExactly` | libgfx/sprite.c:87-89 | with its guard against overflow, the check accepts exactly positive sizes whose rows fit the stride |
| `Packing.RowBytesExactly` | libgfx/sprite.c:204 | the row bytes are the fewest that hold w bits |
| `Sprites.SameWantsSamePicture` | libgfx/sprite.c:114-119 | calls that agree on the visible pixels draw the same picture under every clip |
| `Sprites.ColourKeyIsMask` | libgfx/sprite.c:132-134 | a colour-key blit is the mask blit with bit = (pixel differs from key) |
| `Sprites.FullMaskIsOpaque` | libgfx/sprite.c:184-191 | a mask whose declared bits are all ones gives the opaque blit, whatever its padding |
| `Sprites.ConstantSpriteIsFill` | libgfx/sprite.c:129-136 | an opaque one-colour sprite is a filled rectangle |
| `Sprites.PaddingIrrelevant` | libgfx/sprite.c:9-11 | only the declared pixels matter, not stride or padding |
| `Glyphs.FittingGlyphUnclipped` | libgfx/sprite.c:216-221 | the guard of the fast path means the clip changes nothing |
| `Glyphs.DrawUnclipped` | libgfx/sprite.c:217-251 | the unrolled path draws the glyph's MSB-first meaning |
| `Glyphs.DrawClipped` | libgfx/sprite.c:253-282 | the general path draws the same meaning |
| `Glyphs.DrawGlyph` | libgfx/sprite.c:197-283 | whichever path is taken, the picture is the same function of the old one |
| `Tiling.TilesDrawTheWhole` | libgfx/gfx.c:143-162 | a fill, sprite, mask or glyph under a clip equals the call under each tile of any list that covers the clip, exact clips given |
| `Tiling.PartExact` | libgfx/line.c:254-263 | where a clip is exact, so is every rectangle inside it |
| `Tiling.ColumnCut` | libgfx/line.c:246-273 | such a call under the halves of an exact clip cut at a column, in either order, is the call under the whole |
| `Tiling.RowCut` | libgfx/line.c:246-273 | the same for a clip cut at a row |
| `Scroll.MemMove` | libc/string/memmove.c:3-14 | the ascending or descending loop, chosen by the direction of the move, copies the old words also where source and destination overlap |
| `Scroll.MoveSpan` | libgfx/sprite.c:337-349 | a row step is a shift of the old row with fill where nothing arrives |
| `Scroll.MoveBlock` | libgfx/sprite.c:309-325 | one copy of whole rows moves exactly those rows |
| `Scroll.MoveRowsUp` | libgfx/sprite.c:329-350 | top-down row order never reads a row already overwritten |
| `Scroll.MoveRowsDown` | libgfx/sprite.c:354-376 | bottom-up row order never reads a row already overwritten |
| `Scroll.GfxScroll` | libgfx/sprite.c:286-381 | for every clip, shift and fill: old word at p-(dx,dy) if in clip-and-view, else fill; all else unchanged |
| `Scroll.ScrollTwice` | libgfx/sprite.c:286-381 | two scrolls are one by the sum when they do not oppose each other or the sum clears everything |
| `Scroll.ScrollTwiceExactly` | libgfx/sprite.c:299-304 | for all pictures and fills if and only if that condition holds |
| `LineClip.ClipLine` | libgfx/line.c:328-370 | the loop is the clip function, and never divides by zero |
| `LineClip.ClipLosesNothing` | libgfx/line.c:328-370 | four rounds suffice, so eight never run out; rejects only invisible segments; accepted endpoints are visible points of the segment that enclose all of its visible part |
| `LineClip.ExtraRoundsIdle` | libgfx/line.c:338-342 | a clip that has ended is not changed by more rounds |
| `ErrorTerm.ErrCentred` | libgfx/line.c:402-422 | the error stays within half the major extent |
| `ErrorTerm.MinorStep` | libgfx/line.c:416-424 | one turn of the error update is one step of the rounded quotient |
| `ErrorTerm.ErrAtMostPeak` | libgfx/line.c:402-422 | no error exceeds the largest multiple of the extents' greatest common divisor below half the major extent |
| `ErrorTerm.PeakReached` | libgfx/line.c:402-422 | some step of every line has exactly that error |
| `ErrorTerm.LineFitsExactly` | libgfx/line.c:416-422 | all doubled errors of one line fit int32 if and only if twice the sum of that multiple and the minor extent does |
| `ErrorTerm.SmallLinesFit` | libgfx/line.c:402-422 | major plus twice the minor extent at most 2^31 is enough |
| `ErrorTerm.ThinLineOverflows` | libgfx/line.c:416-422 | step 536870911 of the line of extents 2147483646 and 2 does not fit |
| `ErrorTerm.ErrFitsInt32` | libgfx/line.c:402-422 | all lines within an extent fit if and only if it is at most 715827883 |
| `Bresenham.PathShape` | libgfx/line.c:389-392 | max(adx, ady)+1 distinct pixels from one endpoint to the other, each a king's move from the last |
| `Bresenham.PathInBox` | libgfx/line.c:405-414 | the path stays in the bounding box of its endpoints |
| `Bresenham.PathNearLine` | libgfx/line.c:390-392 | every pixel is within half a pixel of the ideal line |
| `Bresenham.Turn` | libgfx/line.c:416-424 | in int32 arithmetic, the loop body takes the closed form from step s to step s+1, in all octants |
| `Bresenham.Plot` | libgfx/line.c:411-414 | the pixel guard never drops a pixel of the path |
| `Bresenham.Walk` | libgfx/line.c:393-425 | in int32 arithmetic, for every line that fits, the loop paints exactly the path |
| `Lines.Line` | libgfx/line.c:310-426 | the whole picture after a line, for any int32 endpoints whose clipped line fits |
| `Lines.LineStaysVisible` | libgfx/line.c:379-387 | only pixels of clip and view are painted |
| `Lines.VisibleLineUnclipped` | libgfx/line.c:341 | a line between visible pixels is walked unclipped |
| `Lines.HorizontalLine` | libgfx/line.c:310-426 | a horizontal line paints exactly its pixels in clip and view, INT32_MIN to INT32_MAX |
| `Lines.VerticalLine` | libgfx/line.c:310-426 | the same for a vertical line |
| `Lines.HorizontalLineIsHLine` | libgfx/line.c:162-187 | agrees with gfx_hline wherever its length fits and its clip is exact |
| `Lines.VerticalLineIsVLine` | libgfx/line.c:189-213 | agrees with gfx_vline likewise |
| `Lines.SmallAreaSafe` | libgfx/line.c:393-425 | under a visible area whose sides and smaller side add up to at most 2^31 + 3, every line fits |
| `Lines.AxisLineSafe` | libgfx/line.c:393-425 | every horizontal or vertical line fits, in every view |
| `Lines.VisibleLineSafe` | libgfx/line.c:393-425 | a line between visible pixels fits if and only if its own extents do |
| `Lines.ThinViewLineUnsafe` | libgfx/line.c:416-422 | in a view of three rows and INT32_MAX columns, the line from corner to corner does not fit |
| `Diagonals.DiagonalLine` | libgfx/line.c:310-426 | a diagonal line paints exactly its pixels in clip and view, whatever its endpoints |
| `LineTiling.WholePixelLine` | libgfx/line.c:310-426 | horizontal, vertical and diagonal lines paint exactly the points of the segment that are pixels of clip and view |
| `LineTiling.WholePixelsConsistent` | libgfx/line.c:328-387 | under every smaller clip such a line paints what it painted, inside the smaller clip |
| `LineTiling.ConsistentExactly` | libgfx/line.c:328-387 | of the lines between pixels of the view, only these do, for all clips |
| `LineTiling.LostToSomeClip` | libgfx/line.c:350-377 | every other line between pixels of the view loses a pixel to some clip that contains it |
| `LostPixels.LosingRow` | libgfx/line.c:350-377 | for all extents there is a row whose rounded crossing is past a pixel of the line on that row |
| `LineTiling.ShiftedLine` | libgfx/line.c:350-377 | (0, 0) to (10, 3) has pixel (2, 1), and not when column 0 is cut off |
| `LineTiling.VisibleEndsRestrict` | libgfx/line.c:341 | under a clip that contains both endpoints, any line is what it is under a larger clip |
| `LineTiling.TilesDrawTheLine` | libgfx/gfx.c:143-162 | a horizontal, vertical or diagonal line under a clip equals the line under each tile of any list that covers the clip |
| `Rendering.PaintedNearSegment` | libgfx/line.c:372-425 | for every line and clip, each painted pixel is less than 1.5 pixels per axis from a point of the real segment |
| `Rendering.SegmentCovered` | libgfx/line.c:310-426 | for every line and clip, each point of the real segment in the closed visible rectangle is less than 2 pixels per axis from a painted pixel |
| `Runs.Execute` | libgfx/gfx.h:203-333 | each drawing call does to the handle what its meaning says |
| `Runs.ExecuteAll` | libgfx/gfx.h:203-333 | every run keeps the buffer size and index safety and ends in the meant picture |
| `Runs.StepFrame` | libgfx/line.c:15-21 | no call changes a pixel outside the clip in force |
| `Runs.RunFrame` | libgfx/line.c:15-21 | over every run, a pixel never inside the clip in force keeps its word |
| `Dataflow.ByAddr` | qemutests/intr_dispatch_audit.py:359 | the last instruction at an address, or none there |
| `Dataflow.IndirectEdges` | qemutests/intr_dispatch_audit.py:356-403 | terminates with exactly the edges of the reachable states, each once, if at most 20000 states of in-range instructions are reachable, and with the limit edge alone if and only if more are |
| `Dataflow.RunDescribed` | qemutests/intr_dispatch_audit.py:369-402 | every state of every concrete run is described by a reachable state of the walk |
| `Dataflow.WalkIsSound` | qemutests/intr_dispatch_audit.py:227-234 | an indirect transfer reached by any run has an edge of its kind, target unknown or the symbol at the register's value |
| `Dataflow.KnownExactly` | qemutests/intr_dispatch_audit.py:369-392 | on every path, a register is known to hold an immediate if and only if the path has loaded it and no instruction since may have written the register |
| `Dataflow.LoadedTargetFound` | qemutests/intr_dispatch_audit.py:265-268 | a register loaded and not overwritten on some path yields the edge to its symbol, also at joins |
| `Dataflow.PathOfRun` | qemutests/intr_dispatch_audit.py:391-402 | every run of the machine is a path of the walk, with everything known being true |
| `Dataflow.RunOfPath` | qemutests/intr_dispatch_audit.py:391-402 | every path of the walk that passes no indexed jump is a run of the machine |
| `Dataflow.IndexedJumpFallsThrough` | qemutests/intr_dispatch_audit.py:385-402 | behind an indexed jump the walk goes on with the next instruction and the same knowledge, and nowhere else |
| `Dataflow.EdgesOfRuns` | qemutests/intr_dispatch_audit.py:356-403 | without indexed jumps, an edge is in the result if and only if some run ends at a transfer of its kind and the loads of that run give its target, or none |
| `Dataflow.SparesExactly` | qemutests/intr_dispatch_audit.py:286-340 | an instruction is known not to write a register if and only if no execution of it changes the register; jumps through a register or table write none |
| `Dataflow.ValueSurvives` | qemutests/intr_dispatch_audit.py:343-353 | true exactly when the last setup is followed by no write to the register |
| `Dataflow.SurvivorUnchanged` | qemutests/intr_dispatch_audit.py:343-353 | then a straight run from setup to transfer keeps the register's value |
| `Intervals.Merge` | qemutests/aarch64_m1_evidence.py:45-52 | a canonical list that covers the same addresses |
| `Intervals.CanonicalUnique` | qemutests/aarch64_m1_evidence.py:45-52 | canonical lists that cover the same addresses are equal |
| `Intervals.IntervalsMatch` | qemutests/aarch64_m1_evidence.py:40-54 | merged lists are equal if and only if the same addresses are covered |
| `Intervals.ApartExactly` | qemutests/aarch64_m1_evidence.py:90-95 | comparing sorted neighbours finds an overlap if and only if some address lies in two intervals |
| `Intervals.CheckRecords` | qemutests/aarch64_m1_evidence.py:75-107 | true if and only if there is one BSP record, each id below n occurs once, zones are whole 2097152-byte frames and ranges aligned to them, no address is in two zones or two ranges, both cover the same addresses, and the walk line fits |
| `Intervals.WalkedFramesAreCoverage` | qemutests/aarch64_m1_evidence.py:84-105 | in an accepted self-test log, walked frames times 2 MiB = total coverage size = number of addresses in the zones |
| `Matrix.ExecuteMatrixTasks` | qemutests/run_suite_matrix.py:200-259 | if no executor raises, every history is disciplined and complete and the code is the largest of 0 and all task codes; otherwise the call raises, with nothing left running and nothing started beyond the batch of at most max(1, 2 * jobs) tasks |
| `Matrix.FlushShared` | qemutests/run_suite_matrix.py:218-236 | a flush completes its batch and yields its largest code, or raises if and only if a task of it does |
| `Matrix.RunPool` | qemutests/run_suite_matrix.py:229-234 | whatever order the pool starts and ends tasks in, all of them end, and the result is the largest code or the exception |
| `Matrix.StoppedIsDisciplined` | qemutests/run_suite_matrix.py:229-234 | also a run ended by an exception is disciplined, leaves nothing running and has run a task that raised |
| `Matrix.EachOnce` | qemutests/run_suite_matrix.py:238-257 | each task starts once and ends once |
| `Matrix.NeverTooMany` | qemutests/run_suite_matrix.py:223-231 | at most max(1, jobs) tasks at a time, an exclusive one alone |
| `Matrix.ExclusiveInOrder` | qemutests/run_suite_matrix.py:239-247 | an exclusive task comes after all earlier tasks and before all later ones |
| `Matrix.BatchMax` | qemutests/run_suite_matrix.py:231-234 | the largest code does not depend on completion order |
| `Matrix.ZeroMeansSuccess` | qemutests/run_suite_matrix.py:213-259 | the code is 0 if and only if no task code is positive; it is 0 exactly when all are 0 if and only if some is positive or none is negative |
| `Matrix.RunKilledTask` | qemutests/run_suite_matrix.py:188-259 | a single task killed by any signal has run, and the code is 0 |
| `Ports.PortPool.Allocate` | qemutests/run_suite_matrix.py:67-74 | the lowest block of free ports is marked and returned, or nothing changes |
| `Ports.PortPool.Release` | qemutests/run_suite_matrix.py:76-79 | exactly the given ports are unmarked |
| `Ports.LowestFree` | qemutests/run_suite_matrix.py:69-74 | the lowest fitting start, none only if no start fits |
| `Ports.Act` | qemutests/run_suite_matrix.py:67-79 | the pool object performs the steps of the run model |
| `Ports.RunsConsistent` | qemutests/run_suite_matrix.py:57-79 | over every run of allocate and owner release, live blocks are disjoint, in range, and together what is allocated |
| `Ports.RefusedOnlyWhenFull` | qemutests/run_suite_matrix.py:69-74 | a request is refused if and only if every block of that length in the range has a held port, and else gets the lowest that has none |
| `Ppm.ParsePpm` | qemutests/aarch64_boot_logo.py:278-314 | the loops compute the parse function, errors included |
| `PpmGrammar.ParseExactly` | qemutests/aarch64_boot_logo.py:278-314 | for every file, the parse is the answer of the grammar: accepted if and only if "P6", three fields behind white space and comments, the third 255, one byte and the payload; each error exactly in its case |
| `PpmGrammar.GapsEquivalent` | qemutests/aarch64_boot_logo.py:284-290 | the white space and comments in front of any field may be replaced by any others |
| `PpmGrammar.CommentIgnored` | qemutests/aarch64_boot_logo.py:287-290 | a comment line put in front of any field changes nothing, whatever it holds |
| `PyInts.PyIntExactly` | qemutests/aarch64_boot_logo.py:296 | `int` reads n if and only if the token is white space, a sign, digits with single underscores and white space, and n is their value |
| `Ppm.PyIntOfDecimal` | qemutests/aarch64_boot_logo.py:296 | reading back a printed number |
| `PpmGrammar.RoundTrip` | qemutests/aarch64_boot_logo.py:808-810 | parsing a printed file gives width, height and body, for every body of the right length |
| `PpmGrammar.NegativeSizesAccepted` | qemutests/aarch64_boot_logo.py:298-314 | printed with minus signs, both sizes are read back negative and the file is accepted |
| `Ppm.AcceptedSizes` | qemutests/aarch64_boot_logo.py:292-314 | a size of an accepted file is negative if and only if its token writes it so, and then neither size is positive |
| `Ppm.CountRgb` | qemutests/aarch64_boot_logo.py:317-338 | the number of pixels of the colour in the box, never indexing past the payload |
| `Ppm.PictureCount` | qemutests/aarch64_boot_logo.py:329-338 | over the payload of a picture, red first and row by row, these are the pixels of the picture that have the colour |
| `Ppm.CountSplits` | qemutests/aarch64_boot_logo.py:329-338 | the count over a box cut at a column or row is the sum over the halves |

## Left out

- Null handles and null source pointers, which the C functions return on at once: handles and sources are non-null here.
- Source memory that overlaps the handle's own buffer: sprite and mask bytes are values.
- Floating-point rounding in `gfx_line`: the doubles are exact reals, so the snap only serves fractional endpoints in the last row or column.
- Views wider or higher than INT32_MAX, which the library's own casts rule out.
- Lines.Line: needs the doubled error term to fit `int32_t`, since C leaves signed overflow undefined; `ErrorTerm.LineFitsExactly` and `Lines.VisibleLineSafe` say when it does. The same holds for `Bresenham.Walk` and `Bresenham.Turn`.
- Scroll.MemMove: copies words where libc copies bytes, in the same direction.
- LineTiling.ConsistentExactly: endpoints are in the view; with endpoints outside it only `WholePixelsConsistent` is proved, since an invisible line is the same under every clip.
- Outlines.RectOutline: signed overflow in the far-edge sums is modelled as two's complement wrap-around.
- Pixels.Pixel: needs the subscript in range, since C leaves a write outside the buffer undefined; `PixelRight` says when it is.
- Ports.RunsConsistent: a client gives back only blocks it holds; `release` itself accepts any ports, and the lock makes each call one step.
- Matrix.RunPool: task codes and which executors raise are given per task; a cancelled or broken pool is not modelled.
- Dataflow.EdgesOfRuns: is for functions without indexed jumps; the machine leaves the function at one, while the walk goes on behind it (`IndexedJumpFallsThrough`).
- Dataflow.IndirectEdges: instructions are given by their effect; reading them off disassembly text, including the table of write sets, is not modelled.
- Dataflow.WalkIsSound: assumes that calls preserve callee-saved registers and that indexed jumps leave the function.
- Intervals.CheckRecords: text matching and the edge, BSP root and range, AP, probe and ordering conditions of the log are not modelled.
- Ppm.ParsePpm: Python's limit on the number of digits that `int` converts is not modelled.
- The error paths of `gfx_open`, the presents and the other ioctl wrappers of `gfx.c`, and the kernel side of `/dev/gfx0`.
- QEMU launching, sockets, archives, hashing, argument parsing and the other audits of `qemutests`: I/O and pattern matching.
