# Verified models of Atmosphère system modules

This project models the parts of the `stratosphere` system modules where most of their branching, state and
arithmetic is, and proves in Dafny 4.11 what those parts are for. `dafny verify dfyconfig.toml` checks all
of it.

**The font rasterizer of `fatal`** (the vendored `stb_truetype.h`). `CffBuffer`, `Charstring`,
`CharstringContext`, `CharstringOperators`, `CharstringInterpreter` and `CharstringGlyph` model the Type 2
charstring machine: a nested evaluation says what a charstring means, and the loop with its explicit operand
and subroutine stacks is proved to terminate on all font bytes, to stay inside its stacks and to draw
exactly that. `SubroutineInlining` shows that the meaning is the one subroutines should have: a call and the
subroutine's code in its place are interchangeable. `CharstringEncoding` writes outlines as charstrings and
gets the same outlines back, and `CharstringShorthand` writes out what each drawing operator abbreviates.
`HintHeaders` shows that hints are skipped whole, and `GlyphWitnesses` has two fonts on which parts of the
code disagree. `TrueTypeOutline` and `TrueTypeDecoder` do the same for TrueType outlines, which are expanded
in place inside one array; `TrueTypeContours` reads the same contours off their points with the implied
points inserted. `CurveTessellation`, `CubicTessellation`, `CubicDistance` and `CurveFlattening` prove what
flattening approximates and how well, and `FlattenedOutline` says so of each vertex of an outline.
`EdgeBuilding`, `EdgeSort`, `EdgeSweep` and `RasterHeap` follow an outline through edge building, sorting
and the sweep with its linked active list and its free-list allocator, up to what the coverage code is given
on every row, which `EdgeGeometry` relates to the lines of the outline. `BoxFilter`, `GlyphLookup` and
`ShelfPacker` are the prefilters, the table searches and the rectangle packer; `GlyphTables` writes tables
of each format and finds in them what was written.

**The loader.** `ProcessLayout`, `NsoValidation` and `NsoLoading` model where modules are mapped and how
their segments are loaded through one shared buffer. `KernelCapabilities` says when one capability list may
be used under another and when acceptance is an order, `CapabilityFields` what its fields and checks mean on
the words; `CapabilityChecker` proves the scans of the source against it, and `ProgramFlags` shows that
overriding program flags respects it.

**spl.** `CtrDrbgSpec` states CTR_DRBG with AES-128 and no derivation function as in NIST SP 800-90A Rev. 1,
and each byte of its state and output in terms of cipher blocks; `CtrDrbg` is the generator with its byte
buffers, `RandomService` the command on top of it. `Keyslots` is the ownership of hardware key slots with
scoped holders and the available event.

**boot.** `CalibrationCrc` is the CRC that guards the calibration partition.

`MachineInts`, `Numerals`, `FontMemory`, `GlyphOutline`, `Buffers` and `Wrappers` are shared definitions.

## How the models are built

Objects and loops of the source stay classes, arrays and loops; each method is proved against a function
on values, and the properties are lemmas about those functions. The word `hide` in a proof keeps
definitions that it does not need away from the verifier.

Floating-point numbers are real numbers, and casts to integers truncate. Machine integers are unbounded
with every reduction written out where the source's width can matter: 32-bit segment ends, 64-bit
`memset` sizes, 16-bit coordinates, the 128-bit counter. `STBTT_assert` does nothing, as in a release
build, so the fall-back that follows an assertion is what is modelled.

Outside the model are, as parameters: the block cipher, LZ4 and SHA-256 as functions, the square root (which
only `CubicDistance` takes to be one), the results of `malloc`, the secure monitor's answers and its entropy,
the random slide, the ASLR region and the values of the program flags. Decompression in place yields the
decompression of the staged bytes and writes nothing outside its destination.

## Where the code does not do what its documentation says

The proofs follow the code. Each statement below has a witness or an exact condition among the members.

- The box of `stbtt__GetGlyphInfoT2` is that of the stored vertices only while it fits 16 bits
  (`BoxOfStoredVertices`, `WideGlyphBoxDiffers`).
- A charstring may draw before its first move; contour lengths then do not cover the points
  (`LengthsCoverPoints`, `LineBeforeMove`).
- A quadratic curve beyond 16^16 times the squared tolerance disappears instead of being drawn coarsely
  (`EmitsIffWithinDepth`, `SpikeVanishes`).
- Capability acceptance is not transitive under a list with half-empty interrupt pairs
  (`TransitiveIffHarmless`, `HalfEmptyPairLeaks`).
- The argument block is not relocated when the first module is empty (`LayoutTiles`), and 32-bit segment
  ends may wrap (`ModuleCoversSegments`).
- Segments out of order are not checked for. They end in a memory fault, or, when an end is at exactly 4 GB,
  in success with loaded segments erased (`LoadModule`, `UnnoticedDisorder`, `DisorderErases`, `FourGbModule`).
- A random request above 0x10000 bytes reports success and leaves the buffer as it was
  (`RandomService.GenerateRandomBytes`).
- On 1.0.0 key slots are shared (`SlotsAreSharedOn100`).
- A cubic curve whose last piece is still not flat at the depth limit stops short of its end
  (`CubicReachesEnd`), and with no tolerance a bent one disappears (`BentVanishes`, `CubicVanishes`).

One more statement is easily assumed, although the source does not make it: that the quicksort brings entries
further apart than its threshold of twelve in order. It does not (`SmallestStaysInTheMiddle`): once the scans
have crossed, the entry at which the downward scan ended is in neither part. It does when no pass leaves an
entry out (`NoneLeftOutIsInOrder`), and the insertion sort after it does the rest (`SortEdges`).

## Model

| member | source | states |
|---|---|---|
| CffBuffer.GetBigEndian | fatal/source/stb_truetype.h:1126-1134 | The shift-and-or loop yields the big-endian value modulo 2^32, bytes past the end count as zero and the cursor stops at the end |
| CffBuffer.ItemIsSlice | fatal/source/stb_truetype.h:1228-1240 | With the offset array in place, an item is the bytes between its two stored offsets when these are in order and inside the data, and empty otherwise |
| CffBuffer.ReadWritten | fatal/source/stb_truetype.h:1126-1134 | A number written big-endian anywhere in the data is read back, and the cursor lands behind it |
| CffBuffer.IndexRoundTrip | fatal/source/stb_truetype.h:1222-1240 | Every item and the count of an INDEX written with offsets of 1 to 4 bytes are read back exactly |
| CffBuffer.NumberRoundTrip | fatal/source/stb_truetype.h:1172-1182 | Every 16-bit operand in its shortest Type 2 encoding is read back, whatever follows it |
| CffBuffer.FixedRoundTrip | fatal/source/stb_truetype.h:2204-2206 | Every 16.16 fixed-point operand is read back, behind its byte of 255 |
| Charstring.Step | fatal/source/stb_truetype.h:1975-2215 | Any step that lets the run go on has moved its cursor forward in the same buffer: the last component of the termination measure |
| Charstring.Exec | fatal/source/stb_truetype.h:2096-2111 | The nested evaluation is total (calls at most ten deep, then remaining bytes), and only code inside a subroutine ever returns |
| Charstring.ExecExtends | fatal/source/stb_truetype.h:1873-1919 | A run only ever appends to the vertices it started with, also when it fails |
| Charstring.ContoursClose | fatal/source/stb_truetype.h:1889-1901 | From any consistent pen, every contour of an accepted run ends where it started |
| Charstring.GlyphContoursClose | fatal/source/stb_truetype.h:1963-2220 | A glyph that is accepted consists of closed contours only, whatever bytes the font contains |
| CharstringContext.ExtendSpans | fatal/source/stb_truetype.h:1864-1871 | Tracking one more point turns the exact extent of the points so far into the exact extent of all of them |
| CharstringContext.Context.TrackVertex | fatal/source/stb_truetype.h:1864-1871 | The four in-place comparisons keep the box the exact extent of all points tracked since the start |
| CharstringContext.Context.AddVertex | fatal/source/stb_truetype.h:1873-1887 | Measuring or storing, the path grows by the vertex; stored coordinates are reduced to 16 bits and stay inside the array |
| CharstringContext.Context.CloseShape | fatal/source/stb_truetype.h:1889-1893 | A line back to the contour start is added exactly when the pen is elsewhere |
| CharstringContext.Context.MoveTo | fatal/source/stb_truetype.h:1895-1901 | A move first closes the open contour and then starts the next one at the new pen |
| CharstringContext.Context.LineTo | fatal/source/stb_truetype.h:1903-1908 | A relative line ends at the pen plus the offset and becomes one vertex |
| CharstringContext.Context.CurveTo | fatal/source/stb_truetype.h:1910-1919 | The three relative offsets chain, and the vertex records the end point and both control points |
| CharstringContext.BoxOfStoredVertices | fatal/source/stb_truetype.h:1864-1887 | The measured box is the exact extent of the vertices that are stored if and only if the box fits 16-bit coordinates |
| CharstringContext.BoxHoldsVertices | fatal/source/stb_truetype.h:1864-1887 | No end point of a vertex and no control point of a cubic is outside of a box that is their extent |
| CharstringContext.BoxIsTight | fatal/source/stb_truetype.h:1864-1887 | Each side of such a box goes through one of these points |
| CharstringEncoding.OutlineRoundTrip | fatal/source/stb_truetype.h:1895-1919 | For every outline with 16-bit differences that is closed before each move, the bytes of its consecutive differences (rmoveto, rlineto, rrcurveto, endchar) evaluate to exactly its vertices, second control points relative to the first ones |
| CharstringEncoding.GlyphRoundTrip | fatal/source/stb_truetype.h:1935-2221 | Such an outline, written as an item of the charstring INDEX of a font, is the glyph that is read from it |
| CharstringShorthand.OperatorIsShorthand | fatal/source/stb_truetype.h:2012-2087 | Each of the ten path operators evaluates, whatever follows, like the rlineto and rrcurveto sequence that it abbreviates with all operands written out |
| CharstringShorthand.FlexIsShorthand | fatal/source/stb_truetype.h:2117-2197 | Each flex operator evaluates like two rrcurveto with all operands written out: hflex and hflex1 end at the height they began at, flex1 level with its start across its longer direction |
| CharstringShorthand.MoveIsShorthand | fatal/source/stb_truetype.h:1996-2010 | The three moves take the operands on top of the stack and no others; hmoveto and vmoveto are rmoveto along one axis |
| CharstringShorthand.TooFewOperands | fatal/source/stb_truetype.h:2012-2197 | With fewer operands than it needs, each of the ten path and four flex operators rejects the glyph |
| CharstringOperators.DrawLines | fatal/source/stb_truetype.h:2014-2015 | The loop draws one line per whole operand pair below its end, in order, and stops at the first operand it cannot use |
| CharstringOperators.DrawCurves | fatal/source/stb_truetype.h:2055-2056 | The loop draws one curve per six operands below its end and leaves the index behind the last one used |
| CharstringOperators.RLineTo | fatal/source/stb_truetype.h:2012-2016 | rlineto: fails on fewer than two operands and otherwise draws the lines that TN 5177 assigns to its operands |
| CharstringOperators.RRCurveTo | fatal/source/stb_truetype.h:2053-2057 | rrcurveto: one curve per six operands, failing below six |
| CharstringOperators.RCurveLine | fatal/source/stb_truetype.h:2059-2065 | rcurveline: as many curves as fit in front of two operands and then one line from the two that follow the curves, no operand read past the stack pointer |
| CharstringOperators.RLineCurve | fatal/source/stb_truetype.h:2067-2073 | rlinecurve: as many lines as fit in front of six operands and then one curve from the six that follow the lines |
| CharstringOperators.AlternatingLineTo | fatal/source/stb_truetype.h:2021-2035 | hlineto and vlineto: the loop entered at either half draws one line per operand, alternating its axis from the entry on |
| CharstringOperators.AlternatingCurveTo | fatal/source/stb_truetype.h:2037-2051 | hvcurveto and vhcurveto: one curve per four operands with alternating tangents; only the last may use a fifth operand |
| CharstringOperators.ParallelCurveTo | fatal/source/stb_truetype.h:2075-2087 | vvcurveto and hhcurveto: an odd leading operand offsets the first curve only |
| CharstringOperators.FlexOperator | fatal/source/stb_truetype.h:2117-2197 | The four flex operators draw two curves each, the second back to the starting line; others and short stacks fail |
| HintHeaders.HeaderIsSkipped | fatal/source/stb_truetype.h:1981-1994 | Any header of stem hints that ends with a mask draws nothing, and exactly one mask bit per stem, rounded up to bytes, is skipped, operands in front of the first mask counting as stems |
| HintHeaders.LaterMaskIsSkipped | fatal/source/stb_truetype.h:1982-1988 | A later mask skips as many bytes, whatever operands precede it |
| CharstringInterpreter.MoveOperator | fatal/source/stb_truetype.h:1996-2010 | The move operators take their offsets from the top of the stack and fail on too few operands |
| Charstring.SubrNumbers | fatal/source/stb_truetype.h:1921-1933 | In any written INDEX of subroutines every one is called by exactly one 16-bit number, and every other number gives nothing |
| CharstringInterpreter.ReadNumber | fatal/source/stb_truetype.h:2204-2209 | An operand read after its first byte is the operand that starts there, including 16.16 fixed point |
| CharstringInterpreter.CffInt | fatal/source/stb_truetype.h:1172-1182 | The integer forms agree with the operand encoding once cast to 16 bits |
| CharstringInterpreter.CallOperator | fatal/source/stb_truetype.h:2089-2105 | A call suspends the running buffer, pops the number and enters the subroutine at its start; an eleventh level fails |
| CharstringInterpreter.PushOperator | fatal/source/stb_truetype.h:2199-2213 | An operand is pushed below the 48-entry limit; reserved operators and a full stack fail |
| CharstringInterpreter.PendingStep | fatal/source/stb_truetype.h:1975-2216 | One turn of the flat machine keeps the outcome that the suspended frames still denote and takes exactly one from the steps left |
| CharstringInterpreter.RunTurn | fatal/source/stb_truetype.h:1975-2216 | One turn of the loop keeps variables and stacks a picture of the state, and goes on with the pending outcome or ends with it |
| CharstringInterpreter.RunCharstring | fatal/source/stb_truetype.h:1963-2220 | On every font the loop with its explicit stacks terminates, keeps both stacks in bounds, and draws and accepts exactly what nested evaluation does |
| CharstringGlyph.GetGlyphShape | fatal/source/stb_truetype.h:2222-2237 | The counting and the output run agree, so the second fills the allocated array exactly; a rejected glyph gives nothing |
| CharstringGlyph.GetGlyphInfo | fatal/source/stb_truetype.h:2239-2248 | The count and the exact min/max box of all points and cubic controls, or zeros for a rejected glyph |
| GlyphWitnesses.WideGlyphBoxDiffers | fatal/source/stb_truetype.h:1864-1887 | Witness, from font bytes on: a glyph whose measured box ends at 40000 while its last vertex is stored at -25536, so that the box is not that of the stored vertices |
| SubroutineInlining.ExecSame | fatal/source/stb_truetype.h:1975-2216 | A run depends only on the bytes left to read, not on the buffer they are in |
| SubroutineInlining.Shallower | fatal/source/stb_truetype.h:2096-2100 | A run that does not fail is unchanged when fewer calls surround it |
| SubroutineInlining.FrameInPlace | fatal/source/stb_truetype.h:2100-2111 | The code of a returning frame, put in front of any other code, has the effect of the frame and then goes on there |
| SubroutineInlining.CallInPlace | fatal/source/stb_truetype.h:2096-2111 | A returning call and the body of the subroutine followed by the rest of the caller give the same outcome |
| SubroutineInlining.ArrivalGoesOn | fatal/source/stb_truetype.h:1975-2216 | A run that arrives at a byte position goes on from there, independent of what follows the bytes on the way |
| SubroutineInlining.CallIsInlining | fatal/source/stb_truetype.h:2089-2111 | Replacing the bytes of a subroutine call by the subroutine's code preserves the meaning of the charstring, at any point a run reaches |
| SubroutineInlining.EndIsInlining | fatal/source/stb_truetype.h:2089-2115 | The same for a subroutine that ends the glyph: all of its code in place of the call gives the same glyph |
| SubroutineInlining.EmptySubroutineDoesNothing | fatal/source/stb_truetype.h:2089-2111 | An instance on a one-entry INDEX: a call of a subroutine that only returns is a no-op |
| SubroutineInlining.CallEnters | fatal/source/stb_truetype.h:2089-2105 | In a font whose local and global INDEXes differ, callsubr enters the local subroutine, which FDSelect chooses where there is one, and callgsubr the global one, each numbered with the bias of its own INDEX |
| TrueTypeDecoder.LoadFlags | fatal/source/stb_truetype.h:1666-1674 | Run-length coded flags are expanded into the end of the array, a run cut off at the last point included |
| TrueTypeDecoder.LoadAxis | fatal/source/stb_truetype.h:1676-1706 | Each stored coordinate is the running sum of the deltas up to its point, reduced to 16 bits only when stored |
| TrueTypeDecoder.LoadPoints | fatal/source/stb_truetype.h:1664-1706 | The first pass leaves all raw points of the glyph unread behind offset m - n |
| TrueTypeDecoder.CloseShape | fatal/source/stb_truetype.h:1608-1622 | Closing links the pending control point and, for an off-curve start, the start's control point back to the start |
| TrueTypeDecoder.BeginContour | fatal/source/stb_truetype.h:1720-1744 | A contour starts with a move to its first on-curve point, interpolated or skipped to when the first point is off-curve |
| TrueTypeDecoder.AddPoint | fatal/source/stb_truetype.h:1745-1758 | One more point links as in the specification of quadratic outlines, and only the next free record is written |
| TrueTypeDecoder.Expand | fatal/source/stb_truetype.h:1708-1761 | The in-place expansion never overwrites a raw point it has not read and leaves the whole outline at the front |
| TrueTypeDecoder.GetGlyphShape | fatal/source/stb_truetype.h:1624-1761 | For well-formed contours the array of n + 2*contours records suffices and holds exactly the outline of the glyph's bytes |
| TrueTypeDecoder.OutlineFitsInt16 | fatal/source/stb_truetype.h:1544-1551 | Midpoints and copies of 16-bit points are 16-bit: storing an outline loses nothing |
| TrueTypeOutline.ContourIsClosed | fatal/source/stb_truetype.h:1608-1622 | Every contour starts with its only move and its last vertex is where that move went |
| TrueTypeOutline.ContourUsesOffPoints | fatal/source/stb_truetype.h:1745-1758 | The control points of a contour's curves are its off-curve points, each once and in cyclic order |
| TrueTypeContours.ContourIsDrawn | fatal/source/stb_truetype.h:1720-1758 | A contour is a move to its first on-curve point and then, for each next on-curve point all the way around, one line or one curve to it, after the floor of half the sum of any two neighbouring off-curve points has been inserted between them as an on-curve point |
| TrueTypeContours.ExplicitAlternates | fatal/source/stb_truetype.h:1745-1752 | With these points inserted no two neighbours are off the curve |
| TrueTypeContours.OutlineIsDrawn | fatal/source/stb_truetype.h:1712-1761 | The glyph is these contours of its points, cut behind each contour end |
| TrueTypeOutline.ContourSize | fatal/source/stb_truetype.h:1650 | One vertex more than points is enough for a contour, half of the slack the array allows |
| TrueTypeOutline.OutlineSize | fatal/source/stb_truetype.h:1650-1651 | All contours together need at most one vertex per point and one per contour |
| TrueTypeOutline.PointsRoundTrip | fatal/source/stb_truetype.h:1664-1706 | Every list of 16-bit points is decoded to itself from every encoding that describes it: any repeat runs, and one-byte, two-byte and omitted differences as the flags say |
| TrueTypeOutline.PlainRunsDescribe | fatal/source/stb_truetype.h:1664-1706 | Every list of points has an encoding |
| CurveTessellation.TesselateCurve | fatal/source/stb_truetype.h:3375-3393 | With or without an array, the recursion counts and stores the same points |
| CurveTessellation.BezIsBernstein | fatal/source/stb_truetype.h:3378-3382 | The polynomial used for the curve is the Bernstein form |
| CurveTessellation.HalvesCurve | fatal/source/stb_truetype.h:3386-3387 | The two control polygons of a split trace the curve on [0, 1/2] and on [1/2, 1] |
| CurveTessellation.HalvesDeviation | fatal/source/stb_truetype.h:3385-3387 | The squared midpoint deviation of each half is exactly a sixteenth |
| CurveTessellation.TessIsUniform | fatal/source/stb_truetype.h:3375-3393 | Adaptive subdivision is uniform: it emits the curve at 1/2^k, 2/2^k, ..., 1, or nothing when no allowed level is flat |
| CurveTessellation.EmitsIffWithinDepth | fatal/source/stb_truetype.h:3383-3385 | A curve yields points if and only if its squared deviation is at most 16^16 times the squared tolerance, and never more than 2^16 of them |
| CurveTessellation.SpikeVanishes | fatal/source/stb_truetype.h:3383-3385 | Witness: a spike of height one yields no point for squared tolerances below 16^-16 |
| CurveTessellation.TessWithinTolerance | fatal/source/stb_truetype.h:3375-3393 | Every point of the curve is within the tolerance of the point of the polyline at the same parameter |
| CubicTessellation.TesselateCubic | fatal/source/stb_truetype.h:3395-3435 | Counting and storing agree for cubics as well |
| CubicTessellation.CubicPointsOnCurve | fatal/source/stb_truetype.h:3413-3434 | Whatever the flatness test answers, emitted points lie on the cubic at strictly increasing parameters |
| CubicTessellation.CubicReachesEnd | fatal/source/stb_truetype.h:3413-3434 | The last point is the end of the curve if and only if one of the last pieces within the depth limit passes the flatness test; otherwise the polyline stops short |
| CubicTessellation.LastPieceOnCurve | fatal/source/stb_truetype.h:3416-3431 | The last piece after k halvings is the curve on [1 - 1/2^k, 1] |
| CubicTessellation.CubicPointBound | fatal/source/stb_truetype.h:3413-3434 | At most 2^16 points, whatever the flatness test answers |
| CubicDistance.CurveDetour | fatal/source/stb_truetype.h:3403-3411 | With a true square root, the way from end to end by any point of a cubic is no longer than its control polygon |
| CubicDistance.FlatPieceIsNear | fatal/source/stb_truetype.h:3403-3411 | A piece that passes the flatness test lies within half the tolerance of its chord |
| CubicDistance.CubicWithinTolerance | fatal/source/stb_truetype.h:3395-3434 | If no piece runs into the depth limit, the whole cubic is within half the tolerance of the polyline that is emitted |
| CubicDistance.BentVanishes | fatal/source/stb_truetype.h:3398-3414 | With no tolerance a bent curve is never flat enough at any depth, and yields no point |
| CubicDistance.CubicVanishes | fatal/source/stb_truetype.h:3398-3414 | Witness of that |
| CurveFlattening.CountMoves | fatal/source/stb_truetype.h:3446-3449 | The contour count is the number of moves |
| CurveFlattening.Pass | fatal/source/stb_truetype.h:3462-3504 | One pass computes the points and the length of every contour, and a pass without an array counts the same points |
| CurveFlattening.FlattenCurves | fatal/source/stb_truetype.h:3438-3513 | The array allocated for the counted points is filled exactly, and the lengths are those of the outline |
| FlattenedOutline.PartsMakeUpPoints | fatal/source/stb_truetype.h:3472-3504 | The point array is made up of one part per vertex, in order |
| FlattenedOutline.StraightPart | fatal/source/stb_truetype.h:3473-3487 | The part of a move or a line is its end |
| FlattenedOutline.QuadraticPart | fatal/source/stb_truetype.h:3488-3493 | The points of a quadratic vertex are its Bernstein polynomial, from the end of the vertex before it over its own control point to its own end, at equal steps of the parameter, the last one being that end |
| FlattenedOutline.QuadraticPartIsNear | fatal/source/stb_truetype.h:3488-3493 | Every point of that polynomial is within the tolerance of the polyline through them |
| FlattenedOutline.QuadraticPartIsThere | fatal/source/stb_truetype.h:3488-3493 | A quadratic vertex has points if and only if the square of its second difference is at most 16^17 times the squared tolerance |
| FlattenedOutline.CubicPart | fatal/source/stb_truetype.h:3494-3500 | The points of a cubic vertex are its Bernstein polynomial, over its first and then its second control point, at increasing parameters |
| FlattenedOutline.CubicPartIsNear | fatal/source/stb_truetype.h:3494-3500 | When no piece is cut off at the depth limit, the last of these points is the end of the vertex, and the whole polynomial is within half the tolerance of the polyline |
| FlattenedOutline.ContourBegins | fatal/source/stb_truetype.h:3474-3483 | The points of a contour begin at the sum of the lengths before it, behind any points that precede the first move |
| CurveFlattening.LengthsSum | fatal/source/stb_truetype.h:3472-3477 | The lengths add up to all points but those drawn before the first move |
| CurveFlattening.LengthsCoverPoints | fatal/source/stb_truetype.h:3472-3504 | The contours cover the point array if and only if no point precedes the first move |
| GlyphWitnesses.LineBeforeMove | fatal/source/stb_truetype.h:3472-3485 | Witness, from font bytes on: a glyph of three points whose only contour is given length one |
| EdgeSort.MedianStopsScans | fatal/source/stb_truetype.h:3244-3264 | The entry moved to the front is the median of the three, and two other entries remain at which the two scans stop |
| EdgeSort.ScanUp | fatal/source/stb_truetype.h:3272-3274 | The unguarded upward scan stops inside the slice, at the first entry not before the pivot |
| EdgeSort.ScanDown | fatal/source/stb_truetype.h:3275-3277 | The unguarded downward scan stops at the last entry not after the pivot |
| EdgeSort.Partition | fatal/source/stb_truetype.h:3244-3286 | In place, both scans stay inside the slice, its entries and the two indices become those of the pass on values, and nothing outside changes |
| EdgeSort.PassDivides | fatal/source/stb_truetype.h:3266-3286 | A pass permutes, gives both parts at least one entry, leaves at most one entry out of both, and puts nothing in front of the upper part that comes after anything in it |
| EdgeSort.QuickSort | fatal/source/stb_truetype.h:3237-3297 | The loop that recurses on the smaller part does what sorting both parts apart does, nothing outside its range changes, and calls nest at most log2 of the size deep |
| EdgeSort.QuickPermutes | fatal/source/stb_truetype.h:3237-3297 | The quicksort permutes its range |
| EdgeSort.ApartIsInOrder | fatal/source/stb_truetype.h:3237-3297 | After the quicksort two entries at least twelve places apart are in order, unless a pass left the later one out of both parts |
| EdgeSort.NoneLeftOutIsInOrder | fatal/source/stb_truetype.h:3237-3297 | If no pass over the input leaves an entry out, from the twelfth place on, all entries twelve places apart are in order |
| EdgeSort.LeftOutMayBeInOrder | fatal/source/stb_truetype.h:3266-3297 | Witness against the converse: of 2k+1 equal entries the middle one is left out, and all are in order |
| EdgeSort.SmallestStaysInTheMiddle | fatal/source/stb_truetype.h:3266-3297 | Witness: among 2k entries the smallest stays in the middle with k larger ones in front of it |
| EdgeSort.InsertionSort | fatal/source/stb_truetype.h:3219-3235 | The result is ordered by top and a permutation |
| EdgeSort.SortEdges | fatal/source/stb_truetype.h:3299-3303 | The first n edges end up ordered by top, as a permutation, and the sentinel behind them is untouched |
| RasterHeap.Heap.constructor | fatal/source/stb_truetype.h:3119 | The empty allocator owns nothing |
| RasterHeap.Heap.Alloc | fatal/source/stb_truetype.h:2660-2679 | Never a block in use: the most recently freed one, else the next one down in the head chunk, else one of a new chunk; live, free and uncarved blocks stay disjoint and sum to the capacity |
| RasterHeap.Heap.Free | fatal/source/stb_truetype.h:2681-2685 | A live block moves to the front of the free list through its own first word; nothing another client stored changes |
| RasterHeap.Heap.Cleanup | fatal/source/stb_truetype.h:2687-2695 | Every chunk is released exactly once, newest first, and none of their words remains in memory |
| RasterHeap.Heap.HeldBlocksAreDisjoint | fatal/source/stb_truetype.h:2660-2685 | A held block overlaps no other held or free block and no chunk header, and lies inside an owned chunk |
| RasterHeap.BlocksApart | fatal/source/stb_truetype.h:2676-2677 | Blocks of all chunks are pairwise disjoint byte ranges |
| EdgeSweep.ActiveList.RemoveEnded | fatal/source/stb_truetype.h:3143-3155 | Exactly the edges that end at or above the row top leave the list and go back to the allocator, in place and keeping the order |
| EdgeSweep.ActiveList.Insert | fatal/source/stb_truetype.h:3159-3172 | A fresh node for the edge, clamped on the first row, is linked in front, in a block given back before if there is one |
| EdgeSweep.ActiveList.Advance | fatal/source/stb_truetype.h:3196-3202 | Every x on the list moves on by its slope and nothing else changes |
| EdgeSweep.NextRow | fatal/source/stb_truetype.h:3143-3202 | Advancing one row's list and deleting what has ended gives the next row's list but for edges starting there |
| EdgeSweep.RowHoldsEachCrossingOnce | fatal/source/stb_truetype.h:3157-3176 | The list of a row holds each crossing edge exactly once, last inserted first, and nothing else |
| EdgeSweep.NodeIsOnItsEdge | fatal/source/stb_truetype.h:2747-2763 | At every row, fx + off_x is where the line through the edge meets the row top |
| EdgeSweep.RasterizeSortedEdges | fatal/source/stb_truetype.h:3117-3211 | For sorted edges the coverage code is given exactly the crossing edges on each row, the cursor never passes the sentinel, and the chunks released at the end are all that were allocated, which are as many as the longest row needs |
| EdgeSweep.FullChunks | fatal/source/stb_truetype.h:2660-2679 | The allocator never gets a chunk while it has a free or uncarved block: the number of chunks is that of blocks ever in use at once, divided up |
| EdgeBuilding.BuildEdges | fatal/source/stb_truetype.h:3331-3354 | The edge array holds one edge per line of the closed contours that is not horizontal, in order |
| EdgeBuilding.EdgesPointDown | fatal/source/stb_truetype.h:3338-3352 | All edges point downwards if and only if the vertical scale is not negative or there is no edge |
| EdgeBuilding.EdgesBalance | fatal/source/stb_truetype.h:3331-3354 | At every level and for every scale the signed crossings of all edges cancel, because contours are closed |
| EdgeBuilding.RowsBalance | fatal/source/stb_truetype.h:3157-3186 | The directions of the active edges cancel at every level of every row |
| EdgeBuilding.Rasterize | fatal/source/stb_truetype.h:3310-3364 | Building, sorting and sweeping together: each row gets the crossing edges of the outline, balanced at every level |
| EdgeBuilding.RasterizeOutline | fatal/source/stb_truetype.h:3515-3526 | From glyph vertices to balanced rows for every nonzero smaller scale, and nothing for an outline without a contour |
| EdgeGeometry.LineHasEdge | fatal/source/stb_truetype.h:3331-3354 | Every line of the closed contours that is not horizontal has its edge among those built |
| EdgeGeometry.LineIsDrawn | fatal/source/stb_truetype.h:3338-3352 | Every point of every such line, scaled and shifted, is on an edge that was built |
| EdgeGeometry.LineEdgeIsImage | fatal/source/stb_truetype.h:3341-3352 | The ends of an edge are the scaled and shifted ends of its line, and its direction says which one the line started from |
| EdgeGeometry.EdgeHasLine | fatal/source/stb_truetype.h:3331-3354 | Every edge comes from such a line of some contour |
| EdgeGeometry.EdgesAreCounted | fatal/source/stb_truetype.h:3331-3354 | There are as many edges as lines that are not horizontal |
| EdgeGeometry.ToleranceInPixels | fatal/source/stb_truetype.h:3515-3520 | What is within the tolerance used for flattening is, scaled by the smaller of the two scales, within the flatness in pixels |
| EdgeGeometry.NodeFields | fatal/source/stb_truetype.h:2747-2763 | A node has the direction, slope and ends of its edge, the end clamped on the first row |
| EdgeGeometry.NodeHasEdge | fatal/source/stb_truetype.h:3143-3172 | Every node of a row comes from an edge that starts above the bottom of the row and, behind the first row, has not ended above it |
| EdgeGeometry.EdgeHasNode | fatal/source/stb_truetype.h:3143-3172 | Every such edge has its node on the row |
| EdgeGeometry.NodeIsOnItsLine | fatal/source/stb_truetype.h:3310-3364 | Every node of every row that the rasterizer hands out is where some line of the outline, scaled and shifted, meets the top of the row |
| BoxFilter.SlideBox | fatal/source/stb_truetype.h:3849-3850 | Adding the new sample and dropping the one kernel-width back moves the box sum on |
| BoxFilter.FilterLine | fatal/source/stb_truetype.h:3841-3888 | The ring-buffer filter writes the floor of the mean of the kernel-width original samples ending at each pixel, where the last kernel-1 samples of any line count as zero |
| BoxFilter.ZeroTailIsKept | fatal/source/stb_truetype.h:3882 | For lines that end with the zeros that are asserted, these are the samples of the line |
| BoxFilter.TailBox | fatal/source/stb_truetype.h:3881-3885 | Whatever the tail holds, the box of a pixel in it ends where the tail begins |
| BoxFilter.LinesAreDisjoint | fatal/source/stb_truetype.h:3838-3890 | With rows no wider than the stride, no pixel belongs to two lines |
| BoxFilter.Prefilter | fatal/source/stb_truetype.h:3832-3954 | Every row or column of any image is box-filtered, and bytes between the lines are untouched |
| GlyphLookup.SearchSegments | fatal/source/stb_truetype.h:1472-1498 | The biased power-of-two search finds the first segment ending at or after the code point, every probe inside the table |
| GlyphLookup.SearchGroups | fatal/source/stb_truetype.h:1512-1532 | The group search equals a plain scan of the sorted groups |
| GlyphLookup.FindGlyphIndex | fatal/source/stb_truetype.h:1446-1537 | For every format and every code point, negative ones included, the lookup equals its definition by plain scans |
| GlyphLookup.SegmentIsTheOne | fatal/source/stb_truetype.h:1500-1509 | A code point inside a segment gets its glyph from that segment |
| GlyphLookup.KernAdvance | fatal/source/stb_truetype.h:2270-2298 | The pair search equals a plain scan of the sorted pairs for the word made of the two glyph numbers |
| GlyphLookup.NeedleIsKey | fatal/source/stb_truetype.h:2286 | For glyph numbers of sixteen bits that word is the key of the pair |
| GlyphLookup.GetCoverageIndex | fatal/source/stb_truetype.h:2300-2358 | Both coverage searches equal a plain scan of the sorted entries, -1 when there is none |
| GlyphTables.DeltaRunIsFound | fatal/source/stb_truetype.h:1466-1509 | In every format 4 table written from ascending runs of code points, a code point in a run with an offset gets the sum of both in sixteen bits |
| GlyphTables.TableRunIsFound | fatal/source/stb_truetype.h:1466-1509 | In a run with a glyph table it gets the word at its place there |
| GlyphTables.NoRunIsFound | fatal/source/stb_truetype.h:1466-1509 | Outside of all runs it gets glyph 0 |
| GlyphTables.ByteTableIsRead | fatal/source/stb_truetype.h:1452-1456 | A written format 0 table is read back |
| GlyphTables.TrimmedTableIsRead | fatal/source/stb_truetype.h:1457-1462 | A written format 6 table is read back, for negative code points too |
| GlyphTables.GroupIsFound | fatal/source/stb_truetype.h:1510-1533 | A code point in a group of a written format 12 or 13 table gets the glyph at its place, or the one glyph of the group |
| GlyphTables.NoGroupIsFound | fatal/source/stb_truetype.h:1510-1533 | Outside of all groups it gets glyph 0 |
| GlyphTables.PairIsFound | fatal/source/stb_truetype.h:2270-2298 | Every pair of a written kerning table gets its distance |
| GlyphTables.NoPairIsFound | fatal/source/stb_truetype.h:2270-2298 | Any other two glyphs get none |
| GlyphTables.CoverageListIsRead | fatal/source/stb_truetype.h:2300-2325 | A written list of glyphs gives each its place |
| GlyphTables.CoverageRangesAreRead | fatal/source/stb_truetype.h:2326-2350 | Written ranges number their glyphs from the starting index of the range on |
| ShelfPacker.Packer.constructor | fatal/source/stb_truetype.h:3737-3746 | An empty target, nothing packed |
| ShelfPacker.Packer.PackRects | fatal/source/stb_truetype.h:3748-3767 | Over all calls so far packed rectangles are disjoint and inside the height (and width unless wider); each call packs the prefix before its first misfit and marks the rest |
| ShelfPacker.CountIsFirstMisfit | fatal/source/stb_truetype.h:3756-3757 | The packed prefix ends at the first rectangle that does not fit from where the packer then is |
| ShelfPacker.InsideExactlyWhenNarrow | fatal/source/stb_truetype.h:3752-3761 | A placed rectangle stays inside the width if and only if it is no wider than the target |
| ProcessLayout.ProcessInfo.CalculateOffsets | loader/source/ldr_process_creation.cpp:350-384 | The loop places the modules back to back with the argument block behind the first, and returns the total |
| ProcessLayout.ProcessInfo.Relocate | loader/source/ldr_process_creation.cpp:418-429 | Module addresses and a nonzero argument address are moved by the start, nothing else |
| ProcessLayout.ProcessInfo.DecideAddressSpaceLayout | loader/source/ldr_process_creation.cpp:350-437 | For every permitted slide the code range lies inside the ASLR region and the modules are where the layout puts them; too large a program is refused |
| ProcessLayout.ChainTiles | loader/source/ldr_process_creation.cpp:360-384 | A chain of regions covers every address of its range exactly once and no other |
| ProcessLayout.LayoutTiles | loader/source/ldr_process_creation.cpp:360-434 | Modules and argument block tile the code range if and only if the first module is not empty, there are no arguments, or the range starts at zero |
| ProcessLayout.LayoutIsAligned | loader/source/ldr_process_creation.cpp:366-381 | All regions are page-aligned when the base is |
| ProcessLayout.NsoSizeIs | loader/source/ldr_process_creation.cpp:366-373 | A module gets as many pages as its furthest 32-bit end needs, no more |
| ProcessLayout.ArgsSizeIs | loader/source/ldr_process_creation.cpp:376-381 | The argument block has room for twice the arguments, 32 KB and two words, in pages |
| ProcessLayout.ModuleCoversSegments | loader/source/ldr_process_creation.cpp:366-373 | A module's mapping covers its text, ro and rw with bss if and only if each of their ends is below 4 GB, or exactly there while another one is in the last page |
| NsoValidation.ValidateNsoHeaders | loader/source/ldr_process_creation.cpp:198-216 | Accepted if and only if there is a main module, nothing but it without a linker, and no text offset |
| NsoValidation.FirstModule | loader/source/ldr_process_creation.cpp:198-216 | In an accepted process the arguments follow the linker, or the main module, which is then all there is |
| NsoLoading.LoadSegment | loader/source/ldr_process_creation.cpp:451-482 | Succeeds if and only if the sizes fit, the file has all the bytes, they decompress to the size in memory, and the hash is the stored one where it is checked; then memory holds the bytes of the file, or their decompression, with that hash, and in any case nothing changes outside the destination and the staging area in the same buffer |
| NsoLoading.ContentIs | loader/source/ldr_process_creation.cpp:451-480 | There is something to load if and only if the file has all the bytes the header names, their decompression, if they are compressed, has the size in memory, and their hash, if it is checked, is the stored one |
| NsoLoading.LoadSegments | loader/source/ldr_process_creation.cpp:490-496 | Three segments in order: staging one never clobbers those before it |
| NsoLoading.ClearGaps | loader/source/ldr_process_creation.cpp:498-505 | Gaps and bss are zeroed, and nothing else, exactly when each 32-bit end is at or below the next segment; otherwise a size wraps in 64 bits and the access leaves the mapping |
| NsoLoading.UnnoticedDisorder | loader/source/ldr_process_creation.cpp:499-503 | Segments out of order escape the fault if and only if every end that is too high is at exactly 4 GB |
| NsoLoading.DisorderErases | loader/source/ldr_process_creation.cpp:499-505 | When an end is at exactly 4 GB, clearing has erased everything below the next segment |
| NsoLoading.FourGbModule | loader/source/ldr_process_creation.cpp:366-373 | Witness: a module of which the layout reserves 4 GB, whose ro and rw overlap and whose loading nevertheless does not fault |
| NsoLoading.LoadModule | loader/source/ldr_process_creation.cpp:484-505 | Success if and only if the file provides the segments and every 32-bit end is at or below the next segment, a memory fault if and only if it provides them and one is not; with the segments in order memory up to the end of bss is then the declared image, with an end at 4 GB everything below the next segment is zero |
| NsoLoading.LayoutFitsModule | loader/source/ldr_process_creation.cpp:366-373 | The reserved mapping has room for the segments if and only if each of their ends is below 4 GB, or exactly there while another one is in the last page |
| NsoLoading.ImageIs | loader/source/ldr_process_creation.cpp:484-497 | In the image of a module each of the three segments is the bytes of the file, or their decompression, with the stored hash where that is checked |
| NsoLoading.ImageGaps | loader/source/ldr_process_creation.cpp:498-505 | The image is zero everywhere else |
| CapabilityChecker.KernelFlagsIsValid | loader/source/ldr_capabilities.cpp:80-101 | The scan decides by the first restriction of the kind whether priorities and cores are nested in it |
| CapabilityChecker.SyscallMaskIsValid | loader/source/ldr_capabilities.cpp:108-119 | Accepted if and only if some restriction has the same index and mask |
| CapabilityChecker.MapRangeIsValid | loader/source/ldr_capabilities.cpp:127-163 | The scan over pairs decides containment in some restricting range with equal flags, and an unpaired word ends it |
| CapabilityChecker.MapPageIsValid | loader/source/ldr_capabilities.cpp:169-180 | Accepted if and only if the same word is listed |
| CapabilityChecker.InterruptPairIsValid | loader/source/ldr_capabilities.cpp:188-207 | Both ids must be allowed by some pair; a pair of empty ids allows everything |
| CapabilityChecker.FirstMatchIsValid | loader/source/ldr_capabilities.cpp:210-282 | For the remaining kinds the first restriction of the kind alone decides |
| CapabilityChecker.ValidateCapabilities | loader/source/ldr_capabilities.cpp:288-327 | The first capability that is not allowed is reported with its kind; ranges are taken two words at a time |
| KernelCapabilities.AcceptanceIsTransitive | loader/source/ldr_capabilities.cpp:288-327 | What is accepted under an accepted list is accepted under the list that accepts it, given harmless unused interrupt slots |
| KernelCapabilities.FullPairsAreHarmless | loader/source/ldr_capabilities.cpp:188-203 | A list without half-empty interrupt pairs has harmless unused slots |
| KernelCapabilities.TransitiveIffHarmless | loader/source/ldr_capabilities.cpp:188-203 | A list is respected transitively if and only if its unused interrupt slots are harmless |
| KernelCapabilities.HalfEmptyPairLeaks | loader/source/ldr_capabilities.cpp:193-199 | Witness: a half-empty pair lets another interrupt through in two steps |
| KernelCapabilities.AppendKeepsAcceptance | loader/source/ldr_capabilities.cpp:288-327 | Appending entries to the restricting list never revokes acceptance |
| CapabilityFields.FlagsRoundTrip | loader/source/ldr_capabilities.cpp:74-78 | A word put together from two priorities of six bits and two cores of eight behind three ones and a zero is a kernel flags word with these fields |
| CapabilityFields.SyscallRoundTrip | loader/source/ldr_capabilities.cpp:104-106 | The same for a mask of 24 system calls and a group of three bits |
| CapabilityFields.RangeRoundTrip | loader/source/ldr_capabilities.cpp:122-124 | The same for 24 bits of address or size and a flag |
| CapabilityFields.HandleRoundTrip | loader/source/ldr_capabilities.cpp:247-248 | The same for the ten bits of a handle table size |
| CapabilityFields.PairAllows | loader/source/ldr_capabilities.cpp:188-203 | A pair allows exactly the two interrupts it was put together from, and all of them when both its slots are unused |
| CapabilityFields.FlagsWithinIsInclusion | loader/source/ldr_capabilities.cpp:80-101 | Kernel flags are accepted by others if and only if they are ranges and all their priorities and cores are among theirs |
| CapabilityFields.RangeWithinIsInclusion | loader/source/ldr_capabilities.cpp:127-163 | A range is within another if and only if the flags are equal and all its pages are among those of the other, which must be less than 4 GB long |
| CapabilityFields.DebugFlagsWithinIsInclusion | loader/source/ldr_capabilities.cpp:262-282 | Debug flags are accepted by others if and only if no bit of theirs is missing there |
| CapabilityFields.RangeListedInPairs | loader/source/ldr_capabilities.cpp:136-160 | Among restrictions that are pairs of range words a range is accepted if and only if it is within one of the pairs |
| CapabilityFields.ValidateSplits | loader/source/ldr_capabilities.cpp:288-327 | A list is judged piece by piece: behind an accepted front the rest decides, and with its own failure |
| CapabilityFields.PlainListIsAccepted | loader/source/ldr_capabilities.cpp:288-327 | A list without ranges is accepted if and only if each of its words is empty or of one of eight kinds and allowed, in any order |
| ProgramFlags.GetProgramInfoFlags | loader/source/ldr_capabilities.cpp:329-356 | The loop collects exactly what the application type and debug entries contribute |
| ProgramFlags.SetProgramInfoFlags | loader/source/ldr_capabilities.cpp:359-376 | Only application type and debug entries are rewritten, in place |
| ProgramFlags.OverrideKeepsKind | loader/source/ldr_capabilities.cpp:359-376 | Rewriting changes no entry's kind, so range pairs stay paired |
| ProgramFlags.OverrideKeepsAcceptance | loader/source/ldr_capabilities.cpp:359-376 | Writing the same flags over a list and over its restricting list never revokes acceptance |
| ProgramFlags.ReadAfterWrite | loader/source/ldr_capabilities.cpp:329-376 | Reading flags back after writing them gives what was written, for the kinds of entries the list has |
| CtrDrbg.IncrementCounter | spl/source/spl_ctr_drbg.hpp:44-51 | The two-word byte-swapped increment is +1 modulo 2^128 on the big-endian counter |
| CtrDrbg.IncrementWord | spl/source/spl_ctr_drbg.hpp:46-48 | One byte-swapped word is replaced by the next number modulo 2^64, and it is zero exactly when that wraps |
| CtrDrbg.XorInto | spl/source/spl_ctr_drbg.hpp:35-42 | The destination becomes the bytewise exclusive or of both buffers |
| CtrDrbg.CarryIntoUpperHalf | spl/source/spl_ctr_drbg.hpp:47-50 | Carrying into the upper word when the lower becomes zero is adding one to the whole modulo 2^128 |
| CtrDrbg.Generator.Update | spl/source/spl_ctr_drbg.cpp:20-31 | The buffers afterwards hold the state of CTR_DRBG_Update, section 10.2.1.2 of NIST SP 800-90A Rev. 1 |
| CtrDrbg.Generator.Initialize | spl/source/spl_ctr_drbg.cpp:33-39 | Instantiation as in section 10.2.1.3.1, whatever the buffers held before |
| CtrDrbg.Generator.Reseed | spl/source/spl_ctr_drbg.cpp:41-45 | Reseeding as in section 10.2.1.4.1 |
| CtrDrbg.Generator.WriteOutput | spl/source/spl_ctr_drbg.cpp:59-71 | Whole blocks and the partial last block together are the key stream cut to size, written nowhere else |
| CtrDrbg.Generator.GenerateRandomBytes | spl/source/spl_ctr_drbg.cpp:47-76 | Output and state as in section 10.2.1.5.1 for every size up to 0x10000, and refusal without any change otherwise |
| CtrDrbgSpec.CounterBlocksDiffer | spl/source/spl_ctr_drbg.hpp:44-51 | No counter block repeats before the counter has gone all the way round |
| CtrDrbgSpec.RequestUsesDistinctBlocks | spl/source/spl_ctr_drbg.cpp:59-74 | All blocks encrypted for one request, its closing update included, are different |
| CtrDrbgSpec.StreamSplits | spl/source/spl_ctr_drbg.cpp:60-64 | The key stream of two stretches is that of the first and then of the advanced counter |
| CtrDrbgSpec.OutputPrefix | spl/source/spl_ctr_drbg.cpp:59-71 | A shorter request from the same state gets a prefix of the longer one |
| CtrDrbgSpec.UpdateIsTwoBlocks | spl/source/spl_ctr_drbg.cpp:20-31 | After an update each byte of the new key and of the new V, xored with the provided byte, is that byte of the next two cipher blocks |
| CtrDrbgSpec.SeedsMatter | spl/source/spl_ctr_drbg.cpp:20-45 | Different provided data always give different states |
| CtrDrbgSpec.InstantiateIs | spl/source/spl_ctr_drbg.cpp:33-45 | The same byte by byte for instantiation from a zero key and counter, and for reseeding; both set the request counter to one |
| CtrDrbgSpec.OutputByte | spl/source/spl_ctr_drbg.cpp:54-71 | Byte i of the output is byte i mod 16 of the cipher block for the counter i/16 + 1 steps on |
| CtrDrbgSpec.AfterGenerateIs | spl/source/spl_ctr_drbg.cpp:72-76 | After a request the key and V are the two cipher blocks behind those of the output, and one more request is counted |
| RandomService.GenerateRandomBytesInternal | spl/source/spl_api_impl.cpp:155-172 | One due reseed precedes the output; above 0x10000 bytes success is reported although only a reseed happened |
| RandomService.GenerateRandomBytes | spl/source/spl_api_impl.cpp:435-446 | Up to 0x10000 bytes the caller gets generator output; above that it gets success and its buffer unchanged |
| Keyslots.Manager.AllocateAesKeyslot | spl/source/spl_api_impl.cpp:584-601 | The lowest free slot becomes the owner's, or the event is cleared and allocation fails; up to 1.0.0 everyone gets slot 0 without a record |
| Keyslots.Manager.FreeAesKeyslot | spl/source/spl_api_impl.cpp:603-621 | The owner's slot is cleared, freed and announced; anyone else's request changes nothing |
| Keyslots.Manager.FreeAesKeyslots | spl/source/spl_api_impl.cpp:785-792 | Every slot of the owner is freed and no other |
| Keyslots.Manager.LoadAesKey | spl/source/spl_api_impl.cpp:476-479 | Only a slot the caller may use changes, and only if the monitor succeeds |
| Keyslots.Manager.LoadTitleKey | spl/source/spl_api_impl.cpp:733-736 | The same for title keys |
| Keyslots.Manager.GenerateAesKey | spl/source/spl_api_impl.cpp:481-497 | A borrowed slot is given back on every path out |
| Keyslots.RunKeepsHeldSlot | spl/source/spl_api_impl.cpp:584-621 | After 1.0.0, over every run of calls by others, a held slot keeps its owner and its key |
| Keyslots.GenerateBorrows | spl/source/spl_api_impl.cpp:481-497 | Key generation leaves the owner table and the keys of all held slots as they were; its result is fixed by the request, the monitor's answers and whether a slot is free |
| Keyslots.AllocationFailsWhenFull | spl/source/spl_api_impl.cpp:584-601 | Allocation after 1.0.0 fails if and only if no slot is free |
| Keyslots.FullUntilSignalled | spl/source/spl_api_impl.cpp:599-619 | After a failed allocation, over every run, a slot is free again only if the event has been signalled |
| Keyslots.RunAnnounces | spl/source/spl_api_impl.cpp:599-619 | As long as nobody waits, the event is set whenever a slot is free |
| Keyslots.SlotsAreSharedOn100 | spl/source/spl_api_impl.cpp:204-208 | Witness that on 1.0.0 one owner's load replaces another's key |
| CalibrationCrc.GetCrc16 | boot/source/boot_calibration.cpp:32-47 | The half-byte table CRC equals the bit-serial CRC of reflected polynomial 0xA001 from 0x55AA, for every byte string |
| CalibrationCrc.TableIsFourShifts | boot/source/boot_calibration.cpp:33-36 | Each table entry is four shift-register steps of its index |
| CalibrationCrc.BurstChangesCrc | boot/source/boot_calibration.cpp:32-47 | Data that differ only within sixteen consecutive bits have different CRCs |
| CalibrationCrc.TwoBytesChangeCrc | boot/source/boot_calibration.cpp:32-47 | Any change to two adjacent bytes changes the CRC |
| CalibrationCrc.ValidateCalibrationCrc16 | boot/source/boot_calibration.cpp:49-54 | A block validates if and only if the CRC over all of it, stored value included, is zero |
| CalibrationCrc.MatchesExactlyWhenZero | boot/source/boot_calibration.cpp:49-54 | The stored value matches if and only if feeding it as well leaves the register at zero |
| CalibrationCrc.BurstInvalidatesBlock | boot/source/boot_calibration.cpp:49-54 | No burst of up to sixteen bits turns a valid block into another valid block, even across the stored CRC |

## Left out

- Compound TrueType glyphs, hinting, the glyph coverage accumulation of `stbtt__fill_active_edges_new`, signed distance fields and the cubic solver.
- Floating-point rounding and NaN, and failure of `malloc`.
- CFF dictionaries and the FDSelect table: the local subroutines of a CID glyph are a parameter of the font.
- Class definition tables, horizontal metrics and format selection in `stbtt_InitFont`.
- IPS patches, memory permissions, argument forwarding and the choice of the ASLR region by address space type.
- Bytes behind `rw_end + bss_size` in a module's mapping, where compressed input may remain.
- `__builtin_ctz(0)` for the empty capability word is taken to be 32, the value that the source's enumeration expects.
- Capability and metadata checks around `ValidateCapabilities`, which compare single numbers.
- The cryptographic key commands besides slot ownership, RSA, and the asynchronous engine with its events.
- Small tables and finite checks: registers, calibration field positions, battery decisions and event counters are not modelled.
- Services, file systems, displays, power management and hardware access.
- CtrDrbg.Generator.GenerateRandomBytes: does not say that the output is unpredictable, because the block cipher is uninterpreted.
- Keyslots.Manager.GenerateAesKey: does not model what the monitor derives from a key source, because that happens in the secure monitor.
- NsoLoading.LoadModule: does not model a segment that reaches beyond the mapping, which the loader does not check for; `LayoutFitsModule` is the exact condition.
- NsoLoading.LoadSegment: does not fix what the staging area holds afterwards, nor the destination after a failure, because partial input may be left there.
- EdgeSweep.RasterizeSortedEdges: does not compute pixels, because the coverage code is left out.
- TrueTypeDecoder.Expand: does not cover contour ends that do not ascend or a single off-curve point as a contour, because the source reads past the contour there.
- TrueTypeDecoder.GetGlyphShape: does not cover compound glyphs, nor the contours that `Expand` does not cover.
- GlyphLookup.FindGlyphIndex: does not cover tables that break the ordering rules of their formats, because a search in them depends on its probes.
- EdgeBuilding.RasterizeOutline: does not cover a smaller scale of zero, because the flatness is divided by it.
- CharstringEncoding.OutlineRoundTrip: does not cover outlines with differences beyond 16 bits, because no operand can carry such a difference.
- CharstringShorthand.OperatorIsShorthand: covers integer operands only, because fixed-point ones differ in nothing but how they are read (`FixedRoundTrip`).
- CharstringShorthand.FlexIsShorthand: does not cover integer operands whose sums go beyond 16 bits, because they cannot be written out as single operands.
