# ILI9341 display driver, modelled in Dafny

This project models the MicroPython driver for the ILI9341 TFT controller
(`ili9341_lib_1_6_1.py`): the colour helpers `color565` and `color888`, and the
drawing core of class `Display`.

The driver's only effect is what it puts on the wire. So the model's state
is the panel geometry plus one append-only **bus trace** of events:

- `CS(level)`: chip select;
- `DC(level)`: data/command line;
- `Write(bytes)`: an SPI write.

Every operation is stated as a pure *run*: the events it appends and its
outcome. The outcome is `Done`, or `Raised(e)` for the Python exception it
would raise under CPython 3. Some examples: `bytes()` of an out-of-range argument raises
ValueError, `to_bytes` of a colour too wide raises OverflowError, a zero divisor
raises ZeroDivisionError, and `range` with step 0 raises ValueError. `Then(a, b)`
sequences two runs and stops at the first exception.

Class `Ili9341.Display` holds `width`, `height`, `colorBytes`, `maxBytes`, the
MADCTL byte and the `trace` field. Its methods follow the source statement by
statement: loops stay loops, with invariants. Each method's `ensures` ties
the new trace to the run function of its operation. What that run means is
then proved as lemmas about the run functions.

Modules:

- `Builtins`: Python integer and sequence semantics.
  - floor division and modulo;
  - `range` lengths;
  - `bytes(list)`;
  - `int.to_bytes`;
  - slicing with clamping;
  - `reversed`;
  - little- and big-endian decoding.
- `Bus`: events, runs, and what `write_cmd`, `write_data` and `run_seq` send.
- `Color`: `color565`, `color888` and the MADCTL byte of the constructor.
- `Panel`: the constructor's pure part (colour depth, rotation) and `is_off_grid`.
- `Window`:
  - `set_block`, `block` and `draw_pixel`: the CASET/PASET/RAMWR window protocol of the ILI9341 datasheet, sections 8.2.20 to 8.2.22;
  - `scroll` and `set_scroll`;
  - runs of several blocks.
- `Fill`: `clear`, `fill_hrect`, `draw_hline`, `draw_vline` and `draw_sprite`.
- `Raster`: `draw_line` (an integer form of its floating-point Bresenham test) and `draw_any_line`.
- `Bitmap`:
  - `get_image_properties`, `draw_image` and `load_sprite` over a file given as bytes;
  - a Windows BMP writer used as an independent reference for round-trip lemmas.
- `Text`: `draw_letter` with its `rotate_180` buffer, and `draw_text`.
- `Ili9341`: class `Display`.

The code's quirks are modelled as written:

- `draw_pixel` sends end coordinate 0.
- The axis-aligned fast path of `draw_line` draws one pixel fewer than the line's length.
- `clear` writes `ceil(h / chunk_height)` full chunks, plus a remainder of `remainder * final_chunk_height` pixels.
- `fill_hrect` always encodes 2 bytes per pixel.
- The row padding is `(w * color_bytes) % 4`.
- `get_image_properties` reads the depth as a 4-byte field; `load_sprite` reads it as a 2-byte field.
- `load_sprite` loops over `range(0, data_size, w)`.
- The large branch of `draw_sprite` slices by `i * w`.
- `draw_any_line` sorts x and y separately.

## Model

| member | source | states |
|---|---|---|
| Color.Color565 | ili9341_lib_1_6_1.py:14-22 | red's top 5 bits land in bits 11-15, green's top 6 in bits 5-10, blue's top 5 in bits 0-4 of a 16-bit value |
| Color.Color565TopBits | ili9341_lib_1_6_1.py:22 | the result depends only on the top 5/6/5 bits: masking the low bits away first changes nothing |
| Color.Color888 | ili9341_lib_1_6_1.py:25-33 | the result is below 2^24 and its three bytes are r, g and b, most significant first |
| Color.Madctl | ili9341_lib_1_6_1.py:141-151 | MADCTL bit 7 is set exactly when rotation and horizontal flip agree, bit 6 is the vertical flip, bit 5 the 90-degree rotation, bit 3 BGR, and the other bits are clear |
| Panel.ColorBytes | ili9341_lib_1_6_1.py:136-139 | colour mode 0 gives 2 bytes per pixel, 1 gives 3, any other mode leaves the depth unset |
| Panel.Configure | ili9341_lib_1_6_1.py:133-151 | the geometry exists exactly for colour modes 0 and 1; a 90-degree rotation exchanges width and height; the MADCTL byte is Color.Madctl of the rotation, both flips and BGR, so every bit Color.Madctl states holds of it |
| Panel.IsOffGrid | ili9341_lib_1_6_1.py:816-841 | a rectangle is on the grid exactly when xmin >= 0, ymin >= 0, xmax < width and ymax < height |
| Ili9341.Display.constructor | ili9341_lib_1_6_1.py:107-151 | the display's geometry and MADCTL byte are those Configure derives from the arguments, and the trace starts empty |
| Builtins.FloorDiv | ili9341_lib_1_6_1.py:653-654 | Python's `//`: the quotient rounds toward minus infinity for either sign of divisor |
| Builtins.FloorMod | ili9341_lib_1_6_1.py:653-654 | Python's `%`: `a == b * (a // b) + r`, with r taking the divisor's sign |
| Builtins.RangeLen | ili9341_lib_1_6_1.py:324 | the number of values `range(start, stop, step)` yields, bracketed by its first and last value, for either sign of step |
| Builtins.ToBytes | ili9341_lib_1_6_1.py:206-207 | `bytes(list)` succeeds exactly when every element is in 0..255, and then holds those values |
| Builtins.IntToBytes | ili9341_lib_1_6_1.py:315 | `int.to_bytes(n, "big")` succeeds exactly when 0 <= v < 256^n, and then has n bytes that decode big-endian to v |
| Builtins.BigEndianRoundTrip | ili9341_lib_1_6_1.py:315 | decoding the big-endian bytes of v gives v back |
| Builtins.BigEndianOfDecoded | ili9341_lib_1_6_1.py:315 | encoding the decoded value of any byte string gives the same bytes back |
| Builtins.ReverseLittleEndian | ili9341_lib_1_6_1.py:375 | reversing little-endian bytes gives the big-endian bytes of the same value |
| Builtins.Slice | ili9341_lib_1_6_1.py:444-446 | a Python slice equals the plain slice when its bounds are in range, and is never longer than the sequence |
| Builtins.SliceClamps | ili9341_lib_1_6_1.py:444-446 | an end past the sequence is clamped to its end; a negative start from -len counts from the end; a start at or past the end gives nothing |
| Bus.SeqRunDone | ili9341_lib_1_6_1.py:229-236 | the command loop of `run_seq` completes exactly when every payload given as a list is a valid `bytes()` argument |
| Bus.SeqRunRaisedPrefix | ili9341_lib_1_6_1.py:229-236 | once a command raises, no later command sends anything |
| Bus.SeqRunFramed | ili9341_lib_1_6_1.py:229-236 | the command loop never touches CS, every write follows a DC change, and a completed loop sends one command per tuple |
| Bus.RunSeqFraming | ili9341_lib_1_6_1.py:220-240 | CS goes low exactly when `select`, as the first event; CS goes high exactly when `deselect` and nothing raised, as the last event |
| Bus.RunSeqWrites | ili9341_lib_1_6_1.py:220-240 | every write of `run_seq` follows a DC change, and a completed call sends exactly one command per tuple |
| Ili9341.Display.WriteCmd | ili9341_lib_1_6_1.py:194-207 | the command byte goes out under DC low inside its own CS pulse, then the arguments (if any) as data; a bad argument raises after the command |
| Ili9341.Display.WriteData | ili9341_lib_1_6_1.py:209-218 | data goes out under DC high inside one CS pulse |
| Ili9341.Display.SendCmds | ili9341_lib_1_6_1.py:229-236 | the loop appends exactly the command loop's run, stopping at the first command that raises |
| Ili9341.Display.RunSeq | ili9341_lib_1_6_1.py:220-240 | appends the run of `run_seq` with its select and deselect flags |
| Window.Word16 | ili9341_lib_1_6_1.py:261-262 | `[v >> 8, v & 0xff]` of a 16-bit coordinate is its two big-endian bytes |
| Window.CoordArgsBytes | ili9341_lib_1_6_1.py:261-262 | `bytes([a >> 8, a & 0xff, b >> 8, b & 0xff])` succeeds exactly when both coordinates fit in 16 bits, and is then their big-endian words |
| Window.BlockWire | ili9341_lib_1_6_1.py:264-279 | a block completes exactly when its four coordinates fit in 16 bits, and then sends CASET, PASET and RAMWR with the data, commands under DC low and payloads under DC high; otherwise it raises ValueError before RAMWR and never raises CS |
| Window.BlockSteps | ili9341_lib_1_6_1.py:275-279 | a block is selection, the three commands in order, then deselection |
| Window.BlockSent | ili9341_lib_1_6_1.py:264-279 | an addressable block sends exactly the selection, the window events and the deselection |
| Window.BlockRefused | ili9341_lib_1_6_1.py:264-279 | a block with a coordinate outside 16 bits raises ValueError, never sends RAMWR and never raises CS |
| Window.PixelIsBlockToOrigin | ili9341_lib_1_6_1.py:343-356 | `draw_pixel` is a block from (x, y) to (0, 0) holding the colour's big-endian bytes |
| Window.BlitsRunAppend | ili9341_lib_1_6_1.py:264-279 | sending two lists of blocks in turn is sending their concatenation |
| Window.BlitsRunDone | ili9341_lib_1_6_1.py:264-279 | a list of blocks completes exactly when every block is addressable |
| Window.BlitsRunKeepsSelect | ili9341_lib_1_6_1.py:264-279 | blocks sent with select and deselect off never touch CS |
| Window.ScrollWire | ili9341_lib_1_6_1.py:843-849 | `scroll` sends VSCRSADD and then the start line as a big-endian word when it fits 16 bits; any other value raises ValueError right after the opcode, with CS high |
| Window.SetScrollWire | ili9341_lib_1_6_1.py:851-866 | `set_scroll` sends nothing when the margins exceed the height; with 16-bit margins it sends VSCRDEF with top, middle and bottom as big-endian words that sum to the height; a negative or wider margin raises ValueError right after the opcode, with CS high |
| Ili9341.Display.SetBlock | ili9341_lib_1_6_1.py:251-262 | appends CASET, PASET and a bare RAMWR |
| Ili9341.Display.Block | ili9341_lib_1_6_1.py:264-279 | appends the block's run |
| Ili9341.Display.DrawPixel | ili9341_lib_1_6_1.py:343-356 | appends the run of a one-pixel window whose end coordinates are 0 |
| Ili9341.Display.Scroll | ili9341_lib_1_6_1.py:843-849 | appends VSCRSADD with the scroll offset as a big-endian word |
| Ili9341.Display.SetScroll | ili9341_lib_1_6_1.py:851-866 | appends the guarded VSCRDEF command |
| Fill.ClearGuards | ili9341_lib_1_6_1.py:310-315 | `clear` raises ZeroDivisionError when `chunk_height` is 0, and OverflowError when the colour does not fit `color_bytes`, before sending anything |
| Fill.ChunkFitsBudget | ili9341_lib_1_6_1.py:312-315 | one chunk of `chunk_height * w` pixels is at most `MAX_BYTES` bytes |
| Fill.ClearOpening | ili9341_lib_1_6_1.py:317-321 | the window (0, 0)-(w-1, h-1) is opened under CS low without deselecting |
| Fill.ClearStreamShape | ili9341_lib_1_6_1.py:322-332 | after RAMWR, DC goes high, `ceil(h / chunk_height)` full chunks follow, then a remainder write only when `h % chunk_height != 0`, then CS high |
| Fill.ClearChunks | ili9341_lib_1_6_1.py:298-333 | the whole of `clear`: one CS-low span holding the window, the full chunks and the remainder write |
| Fill.ChunkCover | ili9341_lib_1_6_1.py:312-330 | the number of chunks is the least n with n * chunk_height >= h, and it overshoots exactly when the division leaves a remainder |
| Fill.ClearTail | ili9341_lib_1_6_1.py:330-331 | `color * remainder * final_chunk_height` is `remainder * final_chunk_height` copies of the colour |
| Ili9341.Display.Clear | ili9341_lib_1_6_1.py:298-333 | appends exactly ClearRun: the window, the chunk loop and the remainder |
| Ili9341.Display.WriteChunks | ili9341_lib_1_6_1.py:324-326 | the chunk loop appends one write of the chunk per iteration |
| Fill.FillHRectShape | ili9341_lib_1_6_1.py:641-669 | off the grid nothing is sent; on the grid, a width of 0 or above 1024 raises ZeroDivisionError; for widths 1 to 1024 and at least one row, a colour outside 16 bits raises OverflowError (the encoding is always 2 bytes), and a 16-bit colour sends the blocks of `1024 // w`-row chunks and a remainder, whose count and remainder add back up to h rows |
| Fill.ChunkSplit | ili9341_lib_1_6_1.py:653-654 | `chunk_height = 1024 // w` is at least 1 for widths 1..1024, and `divmod(h, chunk_height)` splits h |
| Fill.FillBlitAt | ili9341_lib_1_6_1.py:653-669 | block k starts at row y + k * chunk_height; full chunks are `chunk_height` rows of the colour, the last block the remainder rows |
| Fill.FillBlocks | ili9341_lib_1_6_1.py:653-669 | every block spans columns x..x+w-1, is 1 to `chunk_height` rows tall (exactly `chunk_height` unless it is the last), and holds the colour repeated rows * w times |
| Fill.FillRows | ili9341_lib_1_6_1.py:653-669 | the blocks start at row y, end at row y+h-1, and each starts on the row after the previous one ends: no gap and no overlap |
| Fill.FillTail | ili9341_lib_1_6_1.py:665-669 | the remainder block follows the chunks at `chunk_y`, and only when the remainder is not 0 |
| Ili9341.Display.FillHRect | ili9341_lib_1_6_1.py:641-669 | appends exactly FillHRectRun |
| Ili9341.Display.FillBody | ili9341_lib_1_6_1.py:653-669 | appends the chunk blocks and the remainder block; the colour is encoded on 2 bytes, and only when there is something to draw |
| Ili9341.Display.FillChunks | ili9341_lib_1_6_1.py:657-663 | the chunk loop appends one block per chunk and leaves `chunk_y` past the last chunk |
| Ili9341.Display.FillBlocks | ili9341_lib_1_6_1.py:657-669 | the chunk loop, then the remainder block unless a chunk raised |
| Fill.HLineIsOneRowFill | ili9341_lib_1_6_1.py:503-512 | for a 16-bit panel, an on-grid horizontal line is the one-row `fill_hrect` |
| Fill.VLineIsOneColumnFill | ili9341_lib_1_6_1.py:514-523 | for a 16-bit panel, an on-grid vertical line is the one-column `fill_hrect` |
| Ili9341.Display.DrawHLine | ili9341_lib_1_6_1.py:503-512 | appends one block (x, y)-(x+l-1, y) holding l copies of the colour |
| Ili9341.Display.DrawVLine | ili9341_lib_1_6_1.py:514-523 | appends one block (x, y)-(x, y+l-1) holding l copies of the colour |
| Fill.SpriteShape | ili9341_lib_1_6_1.py:429-446 | data within `MAX_BYTES` is one block of the sprite's window; above it, a width of 0 raises ZeroDivisionError from `divmod`, and for a positive width a chunk height of 0 raises ValueError from `range` while any other sends the row chunks and the final block |
| Fill.SpriteChunks | ili9341_lib_1_6_1.py:442-446 | the large branch sends `(h + ch) // ch` chunk blocks, each `chunk_height + 1` rows tall but holding at most `chunk_height * w` bytes, and then the final block |
| Fill.SpriteSlices | ili9341_lib_1_6_1.py:443-444 | because the chunks are sliced by `i * w` with `i` a screen row, each chunk's bytes end where the next chunk's begin, and all the chunks together hold exactly the bytes from `y * w` to `(y + n * chunk_height) * w`: for y > 0 the first `y * w` bytes of the sprite go out in no chunk |
| Ili9341.Display.DrawSprite | ili9341_lib_1_6_1.py:429-446 | appends exactly SpriteRun |
| Ili9341.Display.SpriteChunked | ili9341_lib_1_6_1.py:442-446 | the chunk loop, then the final block, unless a chunk raised |
| Ili9341.Display.SpriteChunks | ili9341_lib_1_6_1.py:443-444 | the chunk loop appends one block per step of `range(y, y + h + 1, chunk_height)` |
| Raster.Normalise | ili9341_lib_1_6_1.py:549-574 | after exchanging axes when \|slope\| > 1 and the endpoints when x0 > x1, the major axis increases, the minor difference is at most the major one, and the endpoints are the original ones |
| Raster.FlushIff | ili9341_lib_1_6_1.py:580 | the floating-point test is, scaled by 2 * dx, the error term plus 2 * \|dy\| exceeding dx |
| Raster.ErrMoves | ili9341_lib_1_6_1.py:580 | a major step adds 2 * \|dy\| to the error, a minor step subtracts 2 * dx |
| Raster.StepKeepsInv | ili9341_lib_1_6_1.py:579-585 | one loop iteration keeps the walk invariant: segments so far are contiguous, one per minor step, and every pixel stays within half a pixel of the ideal line |
| Raster.WalkInvariant | ili9341_lib_1_6_1.py:579-585 | the walk invariant holds after every number of iterations |
| Raster.WalkCountsMinorSteps | ili9341_lib_1_6_1.py:579-585 | the loop flushes exactly \|dy\| segments |
| Raster.SegmentsOk | ili9341_lib_1_6_1.py:579-590 | loop segments plus the remainder make \|dy\| + 1 segments, the last ending at x1 |
| Raster.LineWalk | ili9341_lib_1_6_1.py:574-590 | the segments cover every major coordinate from x0 to x1 exactly once, in increasing order; the first is on y0, each next one is one `y_step` further, the last is on y1; every pixel lies within half a pixel of the ideal line |
| Raster.SegmentsInBox | ili9341_lib_1_6_1.py:574-590 | every segment lies within the line's bounding box |
| Raster.LineExample | ili9341_lib_1_6_1.py:574-590 | the line (0,0)-(4,2) is drawn as runs of 2, 2 and 1 pixels on rows 0, 1 and 2 |
| Raster.LineTail | ili9341_lib_1_6_1.py:588-590 | after the loop, the remainder `temp - 1` is drawn only when it is not 0 |
| Raster.LineFastPathShort | ili9341_lib_1_6_1.py:540-547 | a vertical or horizontal line is one block of `abs(d)` pixels from the lesser endpoint, ending one pixel before the greater one |
| Raster.SegmentBlitsAddressable | ili9341_lib_1_6_1.py:556-558 | with 16-bit endpoints, every segment's block is addressable |
| Raster.LineOneSpan | ili9341_lib_1_6_1.py:578-592 | a sloped line is drawn inside one CS-low span that is released exactly when it completes, and it completes whenever the endpoints fit in 16 bits |
| Raster.AnyLineMirror | ili9341_lib_1_6_1.py:617-626 | sorting x and y separately draws a line, its mirror image and its reverse alike |
| Raster.AnyLineOffPanel | ili9341_lib_1_6_1.py:617-639 | off the panel nothing is sent, and only vertical or horizontal lines raise ZeroDivisionError; on the panel, the line from the lesser to the greater corner is drawn |
| Ili9341.Display.DrawLine | ili9341_lib_1_6_1.py:525-593 | appends exactly LineRun |
| Ili9341.Display.WalkSegments | ili9341_lib_1_6_1.py:579-585 | the loop appends the blocks of the walk's segments and ends with the walk's `yi` and `temp` |
| Ili9341.Display.WalkStep | ili9341_lib_1_6_1.py:580-585 | one iteration flushes a segment or lengthens the run, as Step does |
| Ili9341.Display.DrawSegments | ili9341_lib_1_6_1.py:578-592 | CS low, the segments' blocks, then CS high unless a block raised |
| Ili9341.Display.SendSegments | ili9341_lib_1_6_1.py:579-590 | the loop's segments, then the remainder segment |
| Ili9341.Display.DrawAnyLine | ili9341_lib_1_6_1.py:595-639 | appends exactly AnyLineRun |
| Bitmap.ImageProperties | ili9341_lib_1_6_1.py:379-427 | succeeds exactly for a file with the "BM" signature, a full header and a depth matching `color_bytes`, otherwise TypeError; the padding is `(w * (bpp // 8)) % 4` |
| Bitmap.ImagePropertiesOfBmp | ili9341_lib_1_6_1.py:379-427 | on a file written as a BMP, the properties are the written offset, width, height, depth, data size and padding, exactly when the low two bytes of the compression field are 0 (the 4-byte depth read takes them in) |
| Ili9341.Display.ReadField | ili9341_lib_1_6_1.py:400-401 | the shift-and-add loop decodes four little-endian bytes, and raises TypeError when the file ends first |
| Ili9341.Display.GetImageProperties | ili9341_lib_1_6_1.py:379-427 | returns ImageProperties of the file's bytes |
| Bitmap.ReadAt | ili9341_lib_1_6_1.py:375 | a read returns the next n bytes, clamped to the end of the file |
| Bitmap.ReadRowAt | ili9341_lib_1_6_1.py:373-377 | row k is what is read at the position left after k rows and their skips |
| Bitmap.ImageBlitAt | ili9341_lib_1_6_1.py:374-377 | row k of `draw_image` is the single-row block at y + k holding that row reversed, and the file position advances by the row and the padding |
| Bitmap.ImageRoundTrip | ili9341_lib_1_6_1.py:358-377 | `draw_image` of a written 16-bit BMP sends one single-row block per stored row, each holding the row's bytes reversed |
| Bitmap.MirroredPixel | ili9341_lib_1_6_1.py:375 | reversing a row sends pixel j as the big-endian form of the little-endian pixel at the mirrored column w-1-j |
| Ili9341.Display.DrawImage | ili9341_lib_1_6_1.py:358-377 | appends exactly ImageRun |
| Ili9341.Display.ImageRows | ili9341_lib_1_6_1.py:373-377 | the row loop appends one block per row read |
| Ili9341.Display.ImageRow | ili9341_lib_1_6_1.py:374-377 | one iteration reads a row, sends it reversed, and skips the padding |
| Bitmap.LoadSprite | ili9341_lib_1_6_1.py:448-501 | a loaded sprite fits the panel, has a depth matching `color_bytes`, and its data length is a multiple of both w and h |
| Bitmap.SpriteHeaderChecks | ili9341_lib_1_6_1.py:460-484 | a missing "BM" signature raises TypeError; a short header raises IndexError; an oversize image raises ValueError before the depth is checked; a wrong depth raises TypeError |
| Bitmap.LoadSpriteAccepts | ili9341_lib_1_6_1.py:448-501 | when all checks pass, the result is the data read with its width and height |
| Bitmap.SpriteRoundTrip | ili9341_lib_1_6_1.py:448-501 | `load_sprite` of a written BMP whose rows are a multiple of 2 bytes returns the rows' bytes reversed one after another, with the written width and height, whatever the compression field |
| Bitmap.SpriteHeaderFields | ili9341_lib_1_6_1.py:460-477 | the header fields of a written BMP are read back as written, with the depth read from its 2-byte field |
| Bitmap.SpriteDataRead | ili9341_lib_1_6_1.py:487-494 | the loop over `range(0, data_size, w)` reads every stored row and then only empty reads past the end, so the data is the reversed rows |
| Bitmap.ReadPastEnd | ili9341_lib_1_6_1.py:491-494 | once the reads reach the end of the file, further iterations add nothing |
| Bitmap.PaddingAgrees | ili9341_lib_1_6_1.py:487 | the source's padding `(row bytes) % 4` equals the BMP padding to a 4-byte boundary exactly when the row is a multiple of 2 bytes |
| Bitmap.CompressionSplitsReaders | ili9341_lib_1_6_1.py:477 | a written BMP whose compression field has non-zero low bytes is refused by `get_image_properties` but accepted by `load_sprite` |
| Bitmap.Le32RoundTrip | ili9341_lib_1_6_1.py:465-474 | a header field summed from its four little-endian bytes is the value written, and its low two bytes are the value modulo 2^16 |
| Ili9341.Display.SpriteRows | ili9341_lib_1_6_1.py:490-494 | the loop appends the reversed rows read |
| Ili9341.Display.LoadSprite | ili9341_lib_1_6_1.py:448-501 | returns Bitmap.LoadSprite of the file's bytes |
| Text.Rotated | ili9341_lib_1_6_1.py:686-698 | the rotated buffer has the length of the original |
| Text.RotatedPixel | ili9341_lib_1_6_1.py:686-698 | pixel i of the rotated buffer is pixel n-1-i of the original, both bytes in order |
| Text.RotatedTwice | ili9341_lib_1_6_1.py:686-698 | rotating an even-length buffer twice gives it back |
| Ili9341.Display.Rotate180 | ili9341_lib_1_6_1.py:686-698 | the in-place pixel loop builds Rotated |
| Text.LetterWindow | ili9341_lib_1_6_1.py:704-716 | the glyph's window is w by h in portrait and h by w, ending above y, in landscape |
| Text.LetterWire | ili9341_lib_1_6_1.py:671-717 | `draw_letter` reports a non-zero width exactly when the glyph is non-empty and its window is on the grid, then sends the one block; otherwise it sends nothing |
| Ili9341.Display.DrawLetter | ili9341_lib_1_6_1.py:671-717 | appends LetterRun and returns its width and height |
| Text.Visit | ili9341_lib_1_6_1.py:734 | without `rotate_180` the letters are the text itself; with it, letter k is the text's letter from the end, `text[len - 1 - k]`; either way they are the text's letters |
| Text.PenMoves | ili9341_lib_1_6_1.py:744-755 | after drawn letters, the pen has moved right (portrait) or up (landscape) by the sum of widths and spacings |
| Text.TextAppend | ili9341_lib_1_6_1.py:735-755 | drawing a + b is drawing a, then b from where the pen stopped |
| Text.TextSnoc | ili9341_lib_1_6_1.py:735-755 | one more drawn letter adds its block and its spacing fill, and advances the pen by its width and the spacing |
| Text.TextStops | ili9341_lib_1_6_1.py:739-742 | a letter of zero width or height ends the text: nothing after it is drawn |
| Text.TextTurn | ili9341_lib_1_6_1.py:735-755 | one turn of the loop extends the drawn prefix, or ends the whole text |
| Text.TextStepDone | ili9341_lib_1_6_1.py:735-755 | after one turn, the trace is either the whole text's or that of one more drawn letter |
| Ili9341.Display.TextLetter | ili9341_lib_1_6_1.py:737-753 | one letter, then its spacing fill when the letter was drawn |
| Ili9341.Display.TextStep | ili9341_lib_1_6_1.py:735-755 | one loop iteration as TextTurn states it |
| Ili9341.Display.DrawText | ili9341_lib_1_6_1.py:719-761 | appends exactly TextRun |
| Ili9341.Display.TextLetters | ili9341_lib_1_6_1.py:735-755 | the loop over the letters in visiting order appends TextSteps of them, stopping at the first letter of zero size |

## Left out

- Bring-up: the command table, gamma bytes, `sleep` delays and the final `clear()` in `__init__`, plus `reset`. These are vendor constants and timing. The constructor keeps only geometry, colour depth and MADCTL, and its trace starts empty.
- `Ili9341.Display.constructor`: requires colour mode 0 or 1 and a positive width and height. Any other mode leaves `color_bytes` unset, and a zero width makes bring-up's `clear` divide by zero, so the source cannot build such a display either.
- `Color.Color565`, `Color.Color888`, `Ili9341.Display.constructor`: the colour channels are bytes (0..255) and the transfer budget `bytes_max` is non-negative. Python accepts any int: `color565(0, 0, 256)` sets green's low bit and `color888(256, 0, 0)` is `1 << 24`; a negative budget makes `chunk_height` negative, so `clear` sends no chunk and `draw_sprite` always splits. The model does not cover these inputs.
- `Fill.SpriteShape`: says nothing of a negative sprite width above the budget, where `divmod` by a negative row size gives a non-positive chunk height.
- `read_data`, `cleanup`, `display_on`, `display_off` and `sleep`: hardware reads, `spi.deinit`, or single `write_cmd` wrappers that WriteCmd covers.
- `draw_text8x8`: it is drawn by MicroPython's `framebuf`, which is not part of this model.
- Glyph rasterisation: `font.get_letter` is a function parameter (`Text.Font`).
- `gc.collect()` and `print` diagnostics: they do not touch the bus.
- Floating point in `draw_line`: the slope test is computed exactly on integers. This can differ from Python floats only where the float test rounds across zero.
- `draw_any_line`'s intercept computation: for lines off the panel it is kept only for the division by zero it raises. The values it computes are never used.
- Files: paths and `open` become the file's bytes. OSError from a missing file is not modelled. `read(n)` returns the bytes up to the end of the file.
- Exception paths: `bytes()` of a value outside 0..255 raising ValueError, `int.to_bytes` of a value too wide raising OverflowError, `range` with step 0 raising ValueError and `ord` of an empty read raising TypeError follow CPython 3. MicroPython builds may behave differently on these inputs, and the model does not capture that.
- `to_bytes` without a byte order, in `draw_hline` and `draw_vline`: modelled as big-endian, the default of current Python versions.
- `Fill.HLineIsOneRowFill`, `Fill.VLineIsOneColumnFill`: stated only for 16-bit panels, colours below 2^16 and lengths 1 to 1024. Outside that range the two routines encode or chunk differently.
- `Bitmap.ImageRoundTrip`, `Bitmap.SpriteRoundTrip`: stated only for rows that are a multiple of 2 bytes. Otherwise the source's padding `(row bytes) % 4` differs from the padding a BMP file stores (Bitmap.PaddingAgrees), and the rows are read misaligned.
- The trace has no notion of time, and SPI transfers cannot fail.
