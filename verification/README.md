# Verified models of ICDA's userspace algorithms

This project models the computational core of ICDA's freestanding userspace in Dafny and proves what
that core is there to keep. Code that changes buffers and fields step by step is modelled by classes
and methods with loops; each is tied to a function of its inputs or of the old state, and the lemmas
beside it say what that function means. The modules:

- `AudioMath`, `WavHeader`, `AudioPlayer`, `AudioTheory`, `AudioDaemon`, `AudioExample`: the audio
  streaming daemon. The main loop, with its windowed file cache, integer rate conversion, partial accepts
  and state flags, does step by step what a machine on values does, failing starts and reads outside the
  window buffer included. Over that machine it is proved when the device has been given exactly the
  beginning of the conversion computed directly from the file, and when not.
- `Utf8`: the validator and counter of the shared library and the browser's decoder, against the
  encoding of Unicode scalar values (sections 3 and 4 of RFC 3629).
- `WrapText`, `Wrap`, `WrapCells`, `WrapLoops`: greedy word wrap, the measuring and the drawing form.
- `RenderedText`, `HtmlScan`, `HtmlText`, `HtmlTags`, `PageBuilder`, `PageView`: the browser's one-pass HTML
  renderer into an in-place rewrapped buffer, what each piece of a page adds with every character, number and
  tag name written out, the link ranges the pass leaves, and the two readers of those ranges, the painter and
  the click handler.
- `Raster`, `Ico`, `Bitmap`, `IcoWriter`: the icon generator's canvas and Bresenham line, its ICO writer, and the
  shared library's ICO decoder, which inverts the writer and reads any bitmap laid out as the format has it.
- `Terminal`, `Settings`, `Editor`: the terminal grid, the settings file, the editor buffer.
- `PathNormal`, `Url`, `Ipv4`, `Curl`, `Decimal`, `Widgets`, `Arena`: path normalisation, URL and address
  parsing (the library's and curl's), decimal conversion, slider and scrollbar geometry, and the arena.
- `Bytes`, `Arith`: shared vocabulary (bytes, C strings, 32-bit wrap-around, little-endian numbers) and a
  few facts about products and quotients.

Bytes are integers below 256. Strings of characters are used where the source only compares them with
character constants. A C string is the sequence before its terminator. Machine widths are written out
where a value can reach them (`Wrap32`, the 64-bit limit in `Decimal` and `Arena`, signed 32-bit header
fields in `Ico`).

Where the code departs from its comments or from what one would expect, the model follows the code, and
the exact condition or a concrete input is a lemma:

- `Wrap.RowsAgreeIffNoWideWord`: drawing and measuring count alike on every prefix of a text exactly when
  no word is wider than the row.
- `AudioMath.WindowSufficesIff`, `AudioTheory.OutsideIff`, `AudioTheory.FastTrackLeavesBuffer`,
  `AudioTheory.NarrowFastTrackReadsStale`: the window is large enough exactly up to 96011 frames per second;
  above that a chunk can be read outside the buffer, or from bytes left in it if frames are narrow.
- `AudioTheory.RunKeptIff`, `AudioTheory.DetachedOffer`, `AudioExample.PrefixIsLost`: a start that fails
  while a stream is on has already redirected the path. If that leads to no file, or to one too short, the
  device still has a beginning of the old track and the stream ends; otherwise it is given the other file's
  bytes. `AudioTheory.EmptyStartEnds`: a start without a frame ends the stream early.
- `PageView.GapRowsFollowUnseen`, `PageView.GapRowExample`, `PageView.NulExample`, `PageView.NulPage`,
  `PageView.LeftMarginFollowsUnseen`, `PageView.StatusBarHides`, `PageView.TopMarginIsDead`: two of the
  eighteen pixel rows of a line, characters behind a NUL, the left margin and the status bar take clicks for
  links that are not seen there, and six pixel rows show links but take no clicks.
  `PageView.LastLineNeverSeen`: the status bar hides the last line of every page that scrolls.
- `Ico.WrappedOffsetLeavesFile`, `Ico.WrappedSizeLeavesFile`: the decoder's 32-bit size test lets entries
  pass that lead it outside the file; `Ico.IcoParse` says exactly which files do.
  `Ico.WideImageReportsNoWidth`: reported sides have sixteen bits.
- `IcoWriter.OnePixelIconIsRejected`: the decoder does not accept the writer's one-pixel icon.
- `PathNormal.AgreesIffNoPopAfterLatePop`, `PathNormal.DoubleSlashExample`, `PathNormal.LostPopExample`: a name
  entered after ".." is set off by two slashes, and a later ".." can then be lost.
  `PathNormal.RootOverruns`: the terminator can be written behind a buffer of one character.
- `Widgets.SliderValueExactIff`, `Widgets.SliderOverflowExample`, `Widgets.ScrollsOnlyIff`,
  `Widgets.CutQuotientExample`, `Widgets.ShortTrackExample`: the 32-bit products of slider and scrollbar.
  `Widgets.ReversedRangeThumb`: a reversed range puts the thumb left of the track.
- `RenderedText.NoIdleBlanksIff`, `HtmlScan.NewlinePages`, `HtmlScan.LatePage`: a newline put as a character can
  leave an idle blank, at once or when the line is broken later; lines fit nevertheless.
- `WrapCells.BlankBetweenIff`, `WrapCells.WideWordTouches`: behind a word wider than a row the next word follows
  without a blank.
- `Editor.LastRowClear`: the editor counts its visible rows four pixels above where it draws them, so that the status
  bar can cover the foot of the last one.
- `Curl.ParsersAgree`: curl takes port zero, the library does not. `Decimal.AtoU64`: an overflowing numeral is
  accepted whatever follows its digits.

`dafny verify dfyconfig.toml` checks the whole project.

## Model

| member | source | states |
|---|---|---|
| Utf8.EncodingIsAccepted | userspace/libicda.c:321-368 | the encoding of any scalar value at the head of a text passes the validator's tests, with that length and value |
| Utf8.AcceptedIsEncoding | userspace/libicda.c:321-368 | whatever passes those tests is the encoding of the value it spells: no overlong form, surrogate or value past 0x10FFFF gets through |
| Utf8.PrefixFree | userspace/libicda.c:321-368 | two encodings at the head of the same bytes encode the same scalar value |
| Utf8.DecompositionUnique | userspace/libicda.c:321-368 | a text has at most one decomposition into scalar values |
| Utf8.ParsesIffWellFormed | userspace/libicda.c:321-368 | reading sequence by sequence succeeds exactly on concatenations of encodings |
| Utf8.Collect | userspace/libicda.c:345-352 | the inner loop succeeds iff all continuation bytes are there, and gathers their bits |
| Utf8.Valid | userspace/libicda.c:321-368 | the validator returns true if and only if the bytes before NUL are a concatenation of encodings of scalar values |
| Utf8.LeadersCountScalars | userspace/libicda.c:307-319 | on well-formed text the bytes that are no continuation bytes are as many as the scalar values |
| Utf8.Len | userspace/libicda.c:307-319 | the counter returns the number of scalar values of every well-formed text |
| Utf8.RtStepInvertsEncode | userspace/browser.c:304-321 | the browser's decoder reads every scalar value back from its encoding and advances past exactly that encoding |
| Utf8.RtAllInvertsEncodeAll | userspace/browser.c:304-321 | iterating the browser's decoder over well-formed text yields exactly its scalar values |
| Utf8.RtStepPassesTails | userspace/browser.c:304-321 | behind the byte a step starts at nothing but bytes 80 to BF is ever passed over |
| Utf8.RtStepOnBroken | userspace/browser.c:304-321 | where no whole sequence stands the code point is 0, and the bytes passed over are the leading one and the continuation bytes right behind it, up to the first byte that is none or to the end; a stray continuation byte is passed alone |
| Utf8.RtStepOnComplete | userspace/browser.c:304-321 | on a whole sequence, overlong ones and surrogates included, the code point is the weighted sum of its payload bits |
| Utf8.RtUtf8 | userspace/browser.c:304-321 | the loop computes the specified step, whose meaning the rows above fix, on every byte buffer, malformed or cut off ones included |
| WrapText.TokenPrefix | userspace/libicda.c:2565-2578 | every prefix of a text's words and breaks is the words and breaks of a prefix of the text |
| WrapText.NarrowIffNoWideWord | userspace/libicda.c:2565-2578 | all words fit a row exactly when no run of visible characters longer than the row occurs |
| Wrap.RowsAgreeIffNoWideWord | userspace/libicda.c:2548-2707 | measuring and drawing use the same rows on every prefix of a text if and only if no word is wider than the row |
| Wrap.WideStepsDiffer | userspace/libicda.c:2582-2589 | from equal positions, drawing an over-wide word uses exactly one row more than measuring it |
| Wrap.FurtherLeftIsBetter | userspace/libicda.c:2577-2608 | exchange argument: starting further left never costs a row, further right at most one |
| Wrap.GreedyIsMinimal | userspace/libicda.c:2577-2608 | no layout of a paragraph into rows of the given width has fewer rows than the greedy one |
| Wrap.MeasureIsGreedy | userspace/libicda.c:2548-2613 | without over-wide words the measured count is the row count of greedy filling, paragraph by paragraph |
| Wrap.MeasureIsOptimal | userspace/libicda.c:2548-2613 | without over-wide words the measured count is attained by some layout of the text and is the least of all layouts |
| Wrap.ColumnsFillWidth | userspace/libicda.c:2554-2555 | a row has as many columns of eight pixels as its width has room for, and one below eight pixels |
| WrapLoops.MeasureWord | userspace/libicda.c:2580-2608 | one word moves the measuring loop exactly as the specified step does |
| WrapLoops.Measure | userspace/libicda.c:2548-2613 | the measuring loop terminates and returns the specified row count; nothing without any width |
| WrapLoops.DrawWord | userspace/libicda.c:2677-2705 | one word puts down exactly its visible cells, over as many rows as it takes and are left |
| WrapLoops.DrawToken | userspace/libicda.c:2652-2705 | wrapping, the separating blank and the glyphs of one word keep the drawing loop's promise |
| WrapLoops.Draw | userspace/libicda.c:2615-2707 | the cells drawn are exactly those of the layout's first rows, the final row is the layout's last when rows are left, and from eight pixels on every glyph ends within the width |
| WrapCells.GlyphsStayOnGrid | userspace/libicda.c:2615-2707 | for every text no glyph lands at or past the column or row limit, and rows fill from the left without gaps or overlaps |
| WrapCells.GlyphsWithinWidth | userspace/libicda.c:2622-2707 | from eight pixels on the right edge of every glyph is within the width in pixels, and one more column would not be |
| WrapCells.GlyphsAreTheText | userspace/libicda.c:2615-2707 | the glyphs drawn are the visible characters in order: always a prefix, and all of them when the rows suffice |
| WrapCells.BlankBetweenIff | userspace/libicda.c:2652-2705 | between two neighbouring words in one row stands one blank if and only if the first is no wider than a row; otherwise they touch |
| WrapCells.WideWordTouches | userspace/libicda.c:2652-2705 | at three columns "aaaa b" ends in a row that reads "ab" |
| AudioMath.IndexInSource | userspace/audiod.c:152-177 | every output frame shows a frame the source has |
| AudioMath.NextIndexPastSource | userspace/audiod.c:190-193 | no output frame is missing: one more would show a frame past the end |
| AudioMath.ChunkFitsWindow | userspace/audiod.c:152-177 | up to 96011 frames per second, every chunk shows frames inside one window |
| AudioMath.WindowSufficesIff | userspace/audiod.c:137-177 | the window is large enough for every chunk at every position if and only if the rate is at most 96011 |
| AudioMath.PcmIsHeard | userspace/audiod.c:120-175 | of a file that holds given values as little-endian two's complement or as bytes, the conversion gives, for frame k, exactly the value of frame floor(k * rate / 48000) in mono, (b - 128) * 256 for a byte b, and half the sum of both channels toward zero in stereo |
| WavHeader.FormatReads | userspace/audiod.c:78-114 | the fields of a format chunk written out little-endian are the format read |
| WavHeader.ScanFindsData | userspace/audiod.c:78-114 | whatever well-formed chunks come before the data chunk, the reader finds the last format chunk and the data's place and size |
| AudioPlayer.LaidOutFileAccepted | userspace/audiod.c:78-114 | every file laid out as chunks with a format chunk before its data is accepted as what it says |
| AudioPlayer.NextWindowReady | userspace/audiod.c:137-167 | the next chunk's frames lie in the track and a little past it, so that no 32-bit sum wraps, and the next window starts at or before them |
| AudioPlayer.CommandReady | userspace/audiod.c:227-237 | a message keeps the machine's invariant: the stream's rate, channels and sample size stay the format fields', or it is emptied |
| AudioPlayer.DeviceReady | userspace/audiod.c:240-275 | so does an offer to the device |
| AudioTheory.KeptIsPcm | userspace/audiod.c:152-177 | of a file with all its data, what was given is right, frame by frame, exactly if it is the beginning of the direct conversion |
| AudioTheory.RefilledWindow | userspace/audiod.c:137-150 | after a refill the window shows the file it was read from |
| AudioTheory.RefillReaches | userspace/audiod.c:137-150 | a refill brings in a frame within the window's reach exactly if the file has its bytes |
| AudioTheory.WindowSample | userspace/audiod.c:120-134 | reading a frame through the window is reading it from the file the window shows |
| AudioTheory.OfferKeepsIff | userspace/audiod.c:257-273 | one offer, wherever the path leads: what was given stays right if and only if it was right and every frame the device takes is |
| AudioTheory.WindowLasts | userspace/audiod.c:137-177 | as long as the window lasts, the next chunk is the started track's wherever the path leads |
| AudioTheory.AttachedServes | userspace/audiod.c:137-177 | a refill from the started file serves the next chunk at every rate up to 96011, also when the file is shorter than declared |
| AudioTheory.CutOffStops | userspace/audiod.c:137-150 | when the path leads to no file, or to one that ends before the next frame's place, the next refill fails |
| AudioTheory.OutsideIff | userspace/audiod.c:120-177 | a chunk is read outside the window buffer if and only if its last frame has no place there |
| AudioTheory.SlowTrackStaysInside | userspace/audiod.c:120-177 | up to 96011 frames per second no chunk is |
| AudioTheory.FastTrackLeavesBuffer | userspace/audiod.c:120-177 | the first full chunk of every 16-bit stereo track from 96024 frames per second on is |
| AudioTheory.MissingFileIsCalm | userspace/audiod.c:179-187 | a start of a missing file, whatever is streaming, leaves what is given right |
| AudioTheory.ShortFileIsCalm | userspace/audiod.c:179-187 | so does a start of a file too short for a header, where the data lies behind a format chunk of full length |
| AudioTheory.OfferSafe | userspace/audiod.c:240-275 | from a state in which what was given is right and will stay so, every offer leads to such a state, and a stream that ends by itself was given completely unless it was emptied |
| AudioTheory.RunSafe | userspace/audiod.c:207-279 | over every run whose failing starts leave the path at the started file or cut off from data, every frame the started file has was given as the conversion has it (all of the conversion's beginning, then, if the file has all its data), nothing is read outside the buffer, and a stream that ended by itself was given to its last frame unless a start without a frame had emptied it |
| AudioTheory.RunKeptIff | userspace/audiod.c:207-279 | over every run at all: what the device was given of a stream, on at the end or ended by itself, is right if and only if at each of its offers every frame taken was the started file's |
| AudioTheory.ShownIs | userspace/audiod.c:137-177 | what a refill gives for a frame: that of the file the path leads to, if it has it and the window reaches so far, and otherwise what the buffer holds there |
| AudioTheory.LeftoverFrame | userspace/audiod.c:137-150 | behind the bytes a refill brings, that is what the buffer held before |
| AudioTheory.DetachedOffer | userspace/audiod.c:137-177 | a refill wherever the path leads and whatever the rate: what the device was given stays right exactly if every frame it takes, from the other file or left in the window, is the started file's |
| AudioTheory.NarrowFastTrackReadsStale | userspace/audiod.c:120-177 | from 96024 frames per second on, if frames are narrow enough to stay in the buffer, the last frame of the first full chunk is whatever stood there before |
| AudioTheory.EmptyStartEnds | userspace/audiod.c:190-194 | a start without a frame makes the stream end at the next offer with what was given so far, complete exactly if the last frame had been given |
| AudioTheory.EmptyIff | userspace/audiod.c:190-194 | a track is without a frame exactly if its data is shorter than one |
| AudioTheory.StreamEnds | userspace/audiod.c:240-275 | a stream of a complete file that the device keeps taking from ends by itself exactly once, within one round per frame left and one more, with its whole conversion given |
| AudioExample.PrefixIsLost | userspace/audiod.c:179-205 | a run in which a rejected file is played in place of the track started, which then ends as if it had been given completely |
| AudioDaemon.Daemon.ReadFile | kernel/syscall/syscall.c:174-201 | reading a header fills the buffer with the file's beginning and a terminator and keeps the rest; a missing file changes nothing |
| AudioDaemon.Daemon.ReadFileAt | kernel/syscall/syscall.c:228-256 | a positioned read returns the bytes available and changes no others |
| AudioDaemon.Daemon.WavParse | userspace/audiod.c:78-114 | the header loop accepts exactly the specified headers and leaves the specified fields, also when it rejects |
| AudioDaemon.Daemon.MixedFrame | userspace/audiod.c:125-133 | the channel loop computes the frame's value: the one stored in mono, half the sum of the two stored toward zero in stereo |
| AudioDaemon.Daemon.WinSample | userspace/audiod.c:120-134 | that value of what the window has for a frame, or the report that this is outside the buffer |
| AudioDaemon.Daemon.WindowFill | userspace/audiod.c:137-150 | the window afterwards, and whether it holds a frame, are as specified, for every file, rate and 32-bit sum |
| AudioDaemon.Daemon.ConvertFrames | userspace/audiod.c:169-175 | the conversion loop writes exactly the window's samples for the next frames, and leaves the buffer exactly if one of them has no place in it |
| AudioDaemon.Daemon.GenerateChunk | userspace/audiod.c:152-177 | a chunk is made from the machine's next window, is as long as one can be, and is empty exactly if that window is |
| AudioDaemon.Daemon.StartPlay | userspace/audiod.c:179-205 | the path is replaced in any case; the state afterwards is the machine's, whether the start succeeds or fails at whatever point |
| AudioDaemon.Daemon.OfferChunk | userspace/audiod.c:257-273 | offering a chunk is the machine's offer, whatever the device takes and wherever the path leads |
| AudioDaemon.Daemon.StreamStep | userspace/audiod.c:240-275 | the streaming part of a round is the machine's device step, from every state a run can reach |
| AudioDaemon.Daemon.HandleCommand | userspace/audiod.c:227-237 | one message is the machine's step, failing starts included |
| AudioDaemon.Daemon.HandleCommands | userspace/audiod.c:224-238 | so are the messages of a round, in order |
| AudioDaemon.Daemon.OneRound | userspace/audiod.c:221-278 | one round of the main loop is one round of the machine |
| AudioDaemon.Daemon.Run | userspace/audiod.c:207-279 | over any rounds of messages and device answers the daemon does what the machine does; where the failing starts are calm, the device always has the beginning of the conversion, and all of it once a track has ended by itself |
| Raster.NearestCharacterised | scripts/gen_icons.py:66-85 | the rounding of the ideal line is the only integer within half a step, the upper one at a tie |
| Raster.DigitalLineShape | scripts/gen_icons.py:66-85 | the digital line has max(abs dx, abs dy) + 1 points, joins both ends by king's moves that always advance the longer axis, and stays within half a pixel of the segment |
| Raster.Advance | scripts/gen_icons.py:72-85 | one round of the error update keeps the pen on the ideal line |
| Raster.TraceIsIdeal | scripts/gen_icons.py:72-85 | after any number of rounds the pen is at the ideal point |
| Raster.EndsAtLastStep | scripts/gen_icons.py:76-78 | the pen is at the end point exactly after the last step, so the loop terminates for all integer ends |
| Raster.PenPathIsDigitalLine | scripts/gen_icons.py:66-85 | the loop visits exactly the points of the digital line, in order |
| Raster.OpaqueStroke | scripts/gen_icons.py:66-85 | an opaque stroke paints exactly the pixels some position of the brush covers |
| Raster.BrushIsCentred | scripts/gen_icons.py:72-77 | the brush is a square as wide as the stroke with its middle on the point |
| Raster.CompositeIsMean | scripts/gen_icons.py:38-53 | compositing shows an opaque colour itself and a transparent one not at all, and otherwise each channel is the mean weighted by opacity, rounded down |
| Raster.Canvas.Set | scripts/gen_icons.py:38-53 | one pixel is composited by source-over, every other one kept; off the canvas nothing happens |
| Raster.Canvas.Rect | scripts/gen_icons.py:55-58 | every canvas pixel of the half-open rectangle is composited once, every other one kept |
| Raster.Canvas.Line | scripts/gen_icons.py:66-85 | the canvas afterwards is the old one with the brush put down at exactly the points of the digital line |
| Ico.PixelInFile | userspace/libicda.c:953-980 | every pixel of an entry whose pixel data is in the file is read inside the file |
| Ico.LastPixelEndsExtent | userspace/libicda.c:956-980 | and the guard on the entry's size is tight: some pixel ends exactly where the data it reckons with does |
| Ico.InFileIsSafe | userspace/libicda.c:913-963 | an entry whose offset plus size, without wrapping, is in the file leads neither the scan nor the decoding outside it |
| Ico.OutsideNeedsWrap | userspace/libicda.c:913-929 | the scan reads outside the file only at an entry that passes the size test by wrapping and whose twenty header bytes are not all in the file |
| Ico.HeaderOutsideIsRead | userspace/libicda.c:913-919 | and it does at an entry that passes it and of whose header not even four bytes are |
| Ico.SignedWords | userspace/libicda.c:864-864 | a 32-bit word reads as the number it was cut from, and its negation wraps |
| Ico.SidesWritten | userspace/libicda.c:902-934 | the sides of the directory, one byte each with zero for 256, give their product as area |
| Ico.ProbeEntry | userspace/libicda.c:903-930 | the tests on one entry, in their order and read by read: passed over, a candidate, or a read outside the file |
| Ico.ChooseEntry | userspace/libicda.c:900-936 | the scan leaves the file exactly if some entry's tests do; otherwise the entry chosen is the first decodable one of largest directory area, and there is none only if none is decodable |
| Ico.WritePixel | userspace/libicda.c:963-981 | one pixel is written with channels swapped and rows flipped, and the pixels before it stay, unless its bytes are outside the file |
| Ico.DecodeEntry | userspace/libicda.c:953-986 | decoding an entry leaves the file exactly if the pixel data does; otherwise every pixel is copied, and the reported sides are the image's modulo 65536 |
| Ico.IcoParse | userspace/libicda.c:887-988 | a read outside the file happens exactly for the files named by LeavesFile; otherwise success shows the first largest decodable entry pixel for pixel, with sides cut to sixteen bits, and failure means there is none or it does not fit, and leaves the buffer alone |
| Ico.WrappedOffsetLeavesFile | userspace/libicda.c:913 | a file of 62 bytes whose entry's 32-bit sum wraps to 32 leads the scan outside it |
| Ico.WrappedSizeLeavesFile | userspace/libicda.c:957-963 | an entry in the file whose claimed size wraps the sum leads the pixel loop outside it, through the guard on the entry's size |
| Ico.WideImageReportsNoWidth | userspace/libicda.c:982-983 | an image 65536 pixels wide is decoded and reported with width 0 |
| Bitmap.StoredPixelIsDecoded | userspace/libicda.c:938-981 | of a bitmap laid out field by field, with 24 or 32 bits, either row first, and rows padded to four bytes, the decoder reads every pixel as it was stored, opaque with 24 bits |
| Bitmap.StoredPictureDecodes | userspace/libicda.c:900-963 | such a bitmap whose bytes are in the file is decodable in any limits it fits |
| Bitmap.PictureInPngIsPassedOver | userspace/libicda.c:914-917 | an entry that starts with the PNG signature is passed over |
| Bitmap.ShownPicture | userspace/libicda.c:963-986 | and after decoding the buffer holds red, green, blue and alpha of each of its pixels, row by row from the top |
| IcoWriter.WriteIco | scripts/gen_icons.py:293-311 | the printing loops write exactly the specified file |
| IcoWriter.FieldsWritten | scripts/gen_icons.py:293-311 | the file has the icon magic, one entry with its sides, size and place, an uncompressed bottom-up 32-bit bitmap header, and behind the pixels a mask of zeros |
| IcoWriter.WrittenIconDecodes | scripts/gen_icons.py:293-311 | a written icon of side 2 to 255 is decodable in any limits it fits |
| IcoWriter.WrittenPixel | scripts/gen_icons.py:293-311 | each pixel of the canvas is the pixel the decoder reads, through row flip and channel swap |
| IcoWriter.WriteThenParse | userspace/libicda.c:887-988 | decoding undoes writing: the size and every byte of the canvas come back |
| IcoWriter.OnePixelIconIsRejected | userspace/libicda.c:913-919 | the exception: a one-pixel icon is too short for the decoder's header test |
| RenderedText.AppendFits | userspace/browser.c:267-277 | appending a character and rewinding at the last space keeps every line within the width or without a space |
| RenderedText.AnySequenceWellLaid | userspace/browser.c:259-285 | after any sequence of put, space and newline, newlines put as characters included, every line fits the width or holds no space; only putting a space as a character, which the renderer never does, is left out |
| RenderedText.GlyphsArePutChars | userspace/browser.c:259-285 | without its blanks the text is the characters put, always a prefix and all of them until the buffer is full |
| RenderedText.WidthDoesNotMatter | userspace/browser.c:259-285 | two widths show the same characters as long as neither buffer is full |
| RenderedText.PrefixGlyphsStable | userspace/browser.c:267-277 | whatever is done later, a prefix of the text keeps its characters despite rewrapping |
| RenderedText.IdleStep | userspace/browser.c:259-285 | one operation leaves no idle blank (at the start, behind a line break, two in a row) if and only if there was none and it neither puts a newline at the start or behind a break nor breaks the line at a space a newline stands behind |
| RenderedText.NoIdleBlanksIff | userspace/browser.c:259-285 | hence a text has no idle blank if and only if no operation on the way was of that kind |
| RenderedText.PutsNoBlankNeverIdle | userspace/browser.c:259-285 | in particular none has if no newline was put as a character |
| RenderedText.PutNewlineIsIdle | userspace/browser.c:287-301 | a newline put at the start of any text or behind a break is idle |
| RenderedText.LateBreakIsIdle | userspace/browser.c:267-277 | at three columns a newline put behind a space becomes one when the next character breaks the line there |
| RenderedText.WordsAreKept | userspace/browser.c:259-285 | at every width, until the buffer is full, the words of the text are the words asked for: no space or newline is lost between two and none is made up |
| RenderedText.NewlineBreaks | userspace/browser.c:259-265 | a newline asked for ends the line |
| RenderedText.BreaksStay | userspace/browser.c:259-285 | and no operation takes a line break back |
| HtmlScan.StepKept | userspace/browser.c:405-550 | every tag, entity and character keeps the link ranges sorted, disjoint, inside the text and showing what was emitted in them |
| HtmlScan.PassKept | userspace/browser.c:405-550 | so does the pass over any byte buffer from any index, with strictly growing index |
| HtmlScan.RangeShowsGlyphs | userspace/browser.c:464-473 | the text between a link's ends shows exactly the characters emitted while it was open |
| HtmlScan.EventPutsNoSpace | userspace/browser.c:287-550 | no piece of any page puts a space as a character |
| HtmlScan.EveryPageLaid | userspace/browser.c:405-550 | for every page and width every line of the text fits or has no place to break, and the text has no idle blank if and only if none of the operations the page asks for leaves one |
| HtmlScan.NewlinePages | userspace/browser.c:287-321 | two pages whose text starts with a newline: the entity for code point 10, and its overlong two-byte encoding |
| HtmlScan.LatePage | userspace/browser.c:267-301 | a page on which the newline is harmless until the line breaks at the space before it |
| HtmlScan.CommentEndIsFirst | userspace/browser.c:429-435 | the comment's end is behind the first "-->" at or after its start, or the end of a page without one |
| HtmlScan.TagEndIsFirst | userspace/browser.c:437-448 | the tag's end is the first '>' at which no quote is open, or the end of a page without one |
| HtmlScan.EveryPage | userspace/browser.c:405-550 | for every page the text stays within its capacity, link ranges are sorted, disjoint, inside it and show exactly the characters emitted between their tags, every line fits or has no place to break, and no blank is idle exactly if no operation left one |
| HtmlText.NamedReferences | userspace/browser.c:513-523 | on every page, at every index and width, a named reference adds its own character, or a blank for a non-breaking space |
| HtmlText.DecimalReference | userspace/browser.c:487-523 | a decimal reference of up to eight digits adds the character its numeral denotes, with or without semicolon |
| HtmlText.HexReference | userspace/browser.c:487-523 | so does a hexadecimal one, in either case of its mark and digits |
| HtmlText.EncodedCharacter | userspace/browser.c:287-543 | a character beyond ASCII adds what the font has for its code point |
| HtmlText.BrokenSequence | userspace/browser.c:304-543 | a broken sequence adds nothing, and of the page only its leading byte and the continuation bytes right behind are passed over |
| HtmlText.PlainStretch | userspace/browser.c:545-546 | a stretch of plain characters adds exactly those characters |
| HtmlText.BlankByte | userspace/browser.c:529-533 | a space, tab, carriage return or line feed adds a blank |
| HtmlText.BareLess | userspace/browser.c:423-427 | a '<' that opens no tag adds itself |
| HtmlText.BareAmpersand | userspace/browser.c:487-526 | so does a '&' that starts no reference |
| HtmlText.BareNumber | userspace/browser.c:487-526 | and one before '#' without digits |
| HtmlText.UnmarkedPage | userspace/browser.c:405-550 | at every width a page without markup and without whole encoded sequences reads as its own words, its bytes beyond ASCII left out |
| HtmlText.LatinPage | userspace/browser.c:304-321 | "caf\xE9 ol\xE9" in Latin-1 reads "caf ol" |
| HtmlText.EveryPageWords | userspace/browser.c:405-550 | on every page, until the buffer is full, the words of the text are those its pieces asked for |
| HtmlTags.TagEndReads | userspace/browser.c:437-448 | a tag ends at its first '>', except that everything from a quotation mark of either kind to the next of its kind is passed over |
| HtmlTags.CommentPassed | userspace/browser.c:429-435 | a comment adds nothing and goes to behind the first "-->" behind its opening, or to the end of the page |
| HtmlTags.HiddenTag | userspace/browser.c:226-456 | the opening and closing tags of the eighteen hidden elements, named one by one, go one level in and out; the four empty ones do not go in |
| HtmlTags.TagWithinHidden | userspace/browser.c:457 | no other tag does anything within a hidden element |
| HtmlTags.AnchorOpens | userspace/browser.c:458-470 | an anchor with an address opens a link at the end of the text while the table has room, and any other ends the open one |
| HtmlTags.AnchorCloses | userspace/browser.c:471-473 | its closing tag ends the open link at the end of the text |
| HtmlTags.OtherTag | userspace/browser.c:239-476 | the tags of the breaking elements, named one by one, and of the six headings end the line, and every other tag adds nothing |
| HtmlTags.HiddenElement | userspace/browser.c:449-484 | a hidden element with no markup in it does nothing at all, wherever it stands |
| HtmlTags.HiddenUntil | userspace/browser.c:449-484 | whatever stands in a hidden element, the text and the links stay until a closing tag leads out of the outermost one, or to the end of the page |
| PageBuilder.Page.RtNewline | userspace/browser.c:259-265 | the buffer afterwards is the specified text |
| PageBuilder.Page.RtPut | userspace/browser.c:267-277 | the buffer afterwards is the old text with the character, rewrapped in place; unchanged when full |
| PageBuilder.Page.RtSpace | userspace/browser.c:279-285 | the buffer afterwards is the specified text |
| PageBuilder.Page.RtEmitCp | userspace/browser.c:287-301 | a code point puts its substitute character, a blank, or nothing |
| PageBuilder.ColumnsFillWindow | userspace/browser.c:416-417 | the columns are as many of eight pixels as fit between two margins of six, and at least twenty |
| PageBuilder.SkipComment | userspace/browser.c:429-435 | the scan stops at the specified end of the comment |
| PageBuilder.FindTagEnd | userspace/browser.c:437-448 | the scan finds the tag's end outside quotes, or the end of the page |
| PageBuilder.ReadEntity | userspace/browser.c:487-518 | the loop reads exactly the entity the grammar has at that place, or finds none; what each adds is fixed by the rows of `HtmlText` |
| PageBuilder.Page.HandleTag | userspace/browser.c:449-479 | a tag changes buffer, skip depth and links as the specified event does |
| PageBuilder.Page.HandleText | userspace/browser.c:486-546 | an entity, blank, multi-byte sequence or character changes the buffer as the specified event does, and the next index is the event's; what each adds is fixed by the rows of `HtmlText` |
| PageBuilder.Page.HandlePiece | userspace/browser.c:420-547 | one piece of the page is one specified event, and the next piece starts where it says |
| PageBuilder.Page.BuildRenderText | userspace/browser.c:405-550 | the loop terminates on every buffer and leaves exactly the text and links of the pass |
| PageView.DrawLine | userspace/browser.c:824-846 | a line hands the text routine one run of text and one run per link that meets it |
| PageView.ClampScroll | userspace/browser.c:796-803 | a request in range stays and any other goes to the nearer end of the range, whose far end puts the bottom of the last line at the bottom of the window |
| PageView.LastLine | userspace/browser.c:778-803 | the line whose bottom that is, as many rows below the first as there are line breaks, is the text's last |
| PageView.DrawPage | userspace/browser.c:771-848 | the runs handed to the text routine are those of the visible lines, in order, at the clamped scroll offset |
| PageView.TextIsShown | userspace/browser.c:805-848 | every run drawn puts characters of the text at their own columns of their own line, and every line of which a pixel row is in the content area is drawn in full, up to 511 characters |
| PageView.LinkAt | userspace/browser.c:908-936 | the click loop finds the specified link, or none |
| PageView.PageRunsCover | userspace/browser.c:771-848 | a content pixel is painted for a link exactly if the text position under it is in that link's visible part, the pixel is in the upper sixteen of the line's eighteen rows, and no NUL comes before it in the run, or it is on the underline |
| PageView.ClickFollowsPaint | userspace/browser.c:883-936 | for every text, link table and scroll offset, clicking and seeing agree about every link at a pixel if and only if no link is hit there or the one hit is in sight: above the status bar, off the two gap rows, not behind a NUL |
| PageView.ClickFollowsPaintedLink | userspace/browser.c:883-936 | with disjoint ranges and addresses, link k is seen at a pixel if and only if a click there follows it and it is in sight |
| PageView.RenderedPageClicks | userspace/browser.c:405-936 | the same on any rendered page, at any width and scroll offset |
| PageView.GapRowsFollowUnseen | userspace/font.h:115-133 | in the two pixel rows a glyph does not reach no link is ever painted, and a click follows the link hit above them |
| PageView.GapRowExample | userspace/browser.c:829-844 | the pixel (6, 86) below a linked letter is followed and not painted |
| PageView.NulExample | userspace/gui.c:221-229 | a linked letter behind a NUL is followed and not painted |
| PageView.NulPage | userspace/browser.c:487-546 | a page with a numeric entity for NUL in a link renders to such a text |
| PageView.LeftMarginFollowsUnseen | userspace/browser.c:908-916 | left of the text nothing is painted; up to eight pixels before the first column a click follows the link in it, and further left none |
| PageView.TopMarginIsDead | userspace/browser.c:908-936 | in the six pixel rows between the toolbar and the first line no click follows anything, and a link is painted exactly where its text shows |
| PageView.TopMarginExample | userspace/browser.c:908-936 | a linked letter scrolled up by six pixels shows there and takes no click |
| PageView.StatusBarHides | userspace/browser.c:850-856 | under the status bar no link is seen, and clicks follow the links painted beneath it |
| PageView.LastLineNeverSeen | userspace/browser.c:796-856 | on every page that scrolls the status bar covers the last line at every offset |
| Terminal.RowsAboveStay | userspace/terminal.c:57-96 | whatever is printed, the rows above the cursor of the unbounded sheet stay as they are |
| Terminal.PrintShows | userspace/terminal.c:57-96 | printing k printable characters puts character j in its colours j cells behind the cursor, going on at column 0 of the next row behind column 61; new rows are blank, every other cell stays, and the cursor is k cells further |
| Terminal.ShortPrintShows | userspace/terminal.c:57-96 | within one row that is the cells from the cursor's column on and nothing else |
| Terminal.ControlsShow | userspace/terminal.c:57-76 | a line break goes to column 0 of the next row, blank if new; a carriage return to column 0; a backspace blanks the cell before the cursor, keeping its colours, and does nothing in column 0 |
| Terminal.PrintBoth | userspace/terminal.c:91-96 | printing two strings is printing the one after the other |
| Terminal.Screen.ScrollUp | userspace/terminal.c:41-55 | every row moves up by one and the last is blanked, characters and colours |
| Terminal.Screen.TermPutc | userspace/terminal.c:57-89 | after any character the grid and cursor are the last rows of the unbounded sheet after it, whose contents the rows above fix |
| Terminal.Screen.TermPrint | userspace/terminal.c:91-96 | and after any string; the characters of a printable one that fits the cursor's row are in the grid, in their colours |
| Terminal.Screen.Clear | userspace/terminal.c:126-136 | clearing starts a clean sheet: every cell blank in the plain colours, and the cursor at the top left |
| Settings.AssignsOneKey | userspace/settings_store.h:56-130 | a line gives at most one key a value |
| Settings.KeyDecides | userspace/settings_store.h:80-129 | a line whose name before the first '=' is a key changes exactly that key, if its digit is in the key's range |
| Settings.NoKeyNoChange | userspace/settings_store.h:71-79 | a line without a key, an '=' or a digit changes nothing |
| Settings.Store.ApplyLine | userspace/settings_store.h:56-130 | the character loops apply to the record what the line means, for every line |
| Settings.LastAssignmentWins | userspace/settings_store.h:151-157 | over any lines, the last one that assigns a key decides its value |
| Settings.UnassignedStays | userspace/settings_store.h:151-157 | a key no line assigns keeps its value |
| Settings.LoadedInRange | userspace/settings_store.h:132-159 | loading arbitrary text leaves every field in its documented range |
| Settings.Store.Load | userspace/settings_store.h:132-159 | loading folds the lines of the first non-empty file over the defaults |
| Settings.Put | userspace/settings_store.h:161-173 | as much of the text as fits is appended, and a terminator |
| Settings.Store.Save | userspace/settings_store.h:175-216 | saving writes exactly the printed record and never meets the buffer's end |
| Settings.WrittenOut | userspace/settings_store.h:175-216 | the file written for a record in range, spelt out line by line |
| Settings.DefaultsStand | userspace/settings_store.h:43-55 | a file that assigns nothing leaves the defaults |
| Settings.LoadedPrinted | userspace/settings_store.h:132-216 | loading the first keys of a printed record over any record sets exactly those keys |
| Settings.LoadUndoesSave | userspace/settings_store.h:132-216 | loading what was saved gives the record with flags made 0 or 1 and the others clamped, whatever was there before |
| Settings.InRangeIsNormal | userspace/settings_store.h:185-214 | a record in range survives the round trip unchanged |
| Editor.RowStartInvertsRow | userspace/editor.c:104-119 | finding the start of the cursor's row gives the start of the cursor's line, at every position |
| Editor.MoveUpIsOneRow | userspace/editor.c:153-172 | moving up does nothing in the first row, otherwise goes exactly one row up, to the old column or the end of a shorter line |
| Editor.MoveDownIsOneRow | userspace/editor.c:153-172 | likewise downwards, and nothing in the last row |
| Editor.RemoveUndoesInsert | userspace/editor.c:121-136 | removing what was inserted restores the text |
| Editor.TypedMoves | userspace/editor.c:104-128 | a line feed typed starts the next row, and any other character goes one column further in the same row |
| Editor.Buffer.LineStart | userspace/editor.c:80-84 | the loop finds the start of the line |
| Editor.Buffer.LineEnd | userspace/editor.c:86-90 | the loop finds the end of the line |
| Editor.Buffer.CursorRow | userspace/editor.c:113-119 | the loop counts the line breaks before the position |
| Editor.Buffer.FindRowStart | userspace/editor.c:104-111 | the loop walks to the start of the row, or to the end of the text |
| Editor.Buffer.InsertChar | userspace/editor.c:121-128 | the shifted buffer is the old text with the character inserted; unchanged when full |
| Editor.Buffer.Backspace | userspace/editor.c:130-136 | the buffer is the old text without the character before the cursor; nothing at the start |
| Editor.Buffer.Delete | userspace/editor.c:138-143 | the buffer is the old text without the character at the cursor; nothing at the end |
| Editor.Buffer.MoveVertical | userspace/editor.c:153-172 | the cursor goes to the specified place and the text stays |
| Editor.Buffer.ScrollToCursor | userspace/editor.c:174-182 | the cursor's row is visible afterwards, in pixels whenever one row has room between the header and the status bar, and the view has moved no further than needed |
| Editor.LastRowClear | userspace/editor.c:174-228 | the last row in view is drawn clear of the status bar exactly if the height left over below the whole rows is at least four pixels; every earlier row always is |
| PathNormal.NamesChop | userspace/libicda.c:1958-1966 | ".." takes the last name off the text unless it ends in two slashes; then it takes off a slash and no name |
| PathNormal.AgreesIffNeverPopsTwoSlashes | userspace/libicda.c:1929-1979 | the names in the text are the clamped stack after every component if and only if no ".." arrives while two slashes end the text |
| PathNormal.ConditionOnSource | userspace/libicda.c:1929-1979 | that is so if and only if no ".." of the source comes directly after a ".." that popped a name entered directly after a ".." that left something |
| PathNormal.AgreesIffNoPopAfterLatePop | userspace/libicda.c:1929-1979 | hence the names are the clamped stack throughout if and only if the source's components keep that condition |
| PathNormal.StackWithoutLateNames | userspace/libicda.c:1929-1979 | when no name comes after a ".." that left something, the result's names are the clamped stack |
| PathNormal.NoDotsLeft | userspace/libicda.c:1929-1979 | for every source no "." or ".." is left, and every name comes from the source |
| PathNormal.NormalisedPath | userspace/libicda.c:1929-1979 | for every source the result is rooted as the source is and free of dots, and agrees with the stack throughout exactly under the condition on the source |
| PathNormal.DoubleSlashExample | userspace/libicda.c:1958-1971 | /a/b/../c becomes /a//c |
| PathNormal.LostPopExample | userspace/libicda.c:1958-1971 | /a/b/../c/../.. keeps /a/ where the stack is empty |
| PathNormal.FrontIsBack | userspace/libicda.c:1945-1953 | splitting from the front, as the loop does, finds the names of the path |
| PathNormal.PopName | userspace/libicda.c:1958-1966 | the backward loop shortens the buffer to the specified text |
| PathNormal.PushName | userspace/libicda.c:1968-1974 | a slash if needed and the name are appended if they fit; otherwise the buffer is emptied |
| PathNormal.Normalize | userspace/libicda.c:1929-1979 | success leaves exactly the text of the run; it fails for want of room exactly when that text, at some component, does not fit, and writes behind the buffer exactly for an absolute path without an ordinary name and a buffer of one character |
| PathNormal.RootOverruns | userspace/libicda.c:1935-1979 | the bare root is such a path |
| Url.ParsedDecomposes | userspace/libicda.c:2157-2223 | what the scan finds recomposes to the input |
| Url.DecompositionIsParsed | userspace/libicda.c:2157-2223 | and there is no other decomposition into scheme, host, port and path |
| Url.WrittenUrl | userspace/libicda.c:2157-2223 | a URL without a port names port 80 or 443 by its scheme, one with a port the number written, and one without a path the path "/" |
| Url.CopyHost | userspace/libicda.c:2183-2190 | the host is copied whole or refused when it does not fit |
| Url.ReadPort | userspace/libicda.c:2192-2203 | the port loop yields the value of the digits and their end exactly if there are any and they fit 16 bits |
| Url.FindPort | userspace/libicda.c:2192-2203 | behind the host comes a port if a colon says so, and otherwise the scheme's own holds |
| Url.UrlSplit | userspace/libicda.c:2157-2223 | succeeds if and only if the input is scheme://host[:port][/path] within the limits, port 1 to 65535, and returns exactly its parts |
| Ipv4.ReadIffQuad | userspace/libicda.c:2130-2155 | the scan succeeds exactly on four octets joined by dots, and reads their values |
| Ipv4.WrittenQuadParses | userspace/libicda.c:2130-2155 | four numbers up to 255 written with dots between are read back as their address |
| Ipv4.AddressHoldsOctets | userspace/libicda.c:2153-2154 | which holds the first in its lowest byte and the last in its highest |
| Ipv4.TryParse | userspace/libicda.c:2130-2155 | the library's loop returns the address of a dotted quad and nothing for any other string |
| Curl.ParseU8 | userspace/curl.c:69-81 | the value and length of a run of digits, if there are any and it is at most 255 |
| Curl.TryParseIpv4 | userspace/curl.c:83-103 | curl's parser is the same function of the string as the library's |
| Curl.Request.ParseHttpUrl | userspace/curl.c:105-168 | succeeds iff the URL decomposes within curl's limits and its host is an address or resolves; buffers, port and flag are its parts |
| Curl.ParsersAgree | userspace/curl.c:105-168 | whatever the library accepts with curl's sizes curl accepts; on the URLs curl can hold they differ exactly on port zero, and no path is cut off |
| Decimal.NumeralValue | userspace/libicda.c:121-139 | a printed numeral denotes its number |
| Decimal.NumeralUnique | userspace/libicda.c:121-139 | and is the only string of digits without leading zero that does |
| Decimal.DigitsAreOrdinary | userspace/libicda.c:121-156 | the ten digits stand for zero to nine |
| Decimal.ValueConcat | userspace/libicda.c:121-156 | and one further left counts ten times as much |
| Decimal.AtMostTwenty | userspace/libicda.c:197-229 | a 64-bit number has at most twenty digits, so the digit buffer never overflows |
| Decimal.SnprintfU64 | userspace/libicda.c:197-229 | returns the numeral's length whatever the room, and leaves the terminated prefix that fits |
| Decimal.UintToStr | userspace/libicda.c:121-139 | leaves the same text in the buffer |
| Decimal.ParseUint | userspace/libicda.c:141-156 | accepts exactly the non-empty strings of digits of value at most 2^64 - 1, and returns that value |
| Decimal.AtoU64 | userspace/libicda.c:262-286 | returns the value of the digits, saturated once they overflow, and then accepts whatever follows them |
| Decimal.ReadersAgree | userspace/libicda.c:141-286 | on strings of digits the two readers differ only by saturation |
| Decimal.ReadUndoesPrint | userspace/libicda.c:121-286 | reading back a printed 64-bit number gives it, with either reader |
| Widgets.ScaledBack | userspace/libicda.c:1734-1785 | scaling to other steps and back loses at most one step's width, rounded up |
| Widgets.SliderValueExactIff | userspace/libicda.c:1775-1785 | the 32-bit product never falsifies the slider's value, at any mouse position, if and only if the full travel times the range is below 2^31 |
| Widgets.SliderThumbExactIff | userspace/libicda.c:1734-1762 | the same condition decides whether the thumb is drawn right for every value |
| Widgets.SliderOverflowExample | userspace/libicda.c:1775-1785 | 1016 pixels and a range of three million: the right end of the track gives a negative value |
| Widgets.ReversedRangeThumb | userspace/libicda.c:1743-1761 | the thumb of a reversed range lies left of the track by its length times the travel |
| Widgets.SliderValueInRange | userspace/libicda.c:1775-1785 | under that condition the slider's value is in range, monotone in the mouse position, and takes both ends of the range at both ends of the track |
| Widgets.SliderReachesEveryValue | userspace/libicda.c:1775-1785 | under that condition, with at least as many pixels as steps, every value is selected by some pixel |
| Widgets.SliderThumbClick | userspace/libicda.c:1734-1785 | under that condition the thumb is on the track, and clicking its middle gives its value minus at most ceil(span/travel) |
| Widgets.ScrollThumbClick | userspace/libicda.c:2363-2409 | on tracks taller than 16 the thumb is inside the track, and clicking its middle gives the offset minus at most ceil(span/travel) |
| Widgets.ClickMisses | userspace/libicda.c:2389-2409 | a click beside the track, or with no more content than view, changes nothing |
| Widgets.ThumbIsProportional | userspace/libicda.c:2374-2377 | on tracks taller than 16 the thumb is to the track as the view to the content, to the pixel, but at least sixteen pixels |
| Widgets.ShortTrackThumbClick | userspace/libicda.c:2363-2409 | on tracks of 8 to 16 pixels clicking the thumb's middle scrolls to the top, exactly if the quotient does not come out positive in 32 bits |
| Widgets.ShortTrackExample | userspace/libicda.c:2389-2409 | a short track on which it scrolls to the very end instead |
| Widgets.EdgesDecide | userspace/libicda.c:2389-2409 | no click's quotient is cut by the cast to 32 bits if and only if the ones at the track's two edges are not |
| Widgets.ScrollHitInRange | userspace/libicda.c:2389-2409 | a click's offset is in range; while no quotient is cut it is monotone, the top goes to the beginning, and on tracks taller than 16 the bottom to the end |
| Widgets.ScrollsOnlyIff | userspace/libicda.c:2389-2409 | a lower click never scrolls less far if and only if no click's quotient is cut by the cast to 32 bits |
| Widgets.CutQuotientExample | userspace/libicda.c:2389-2409 | on a track of 17 pixels a cut quotient sends the click at height 4 to the end and the one at 5 to the beginning |
| Arena.MaskTest | userspace/libicda.c:387 | the mask test accepts exactly the powers of two |
| Arena.PadAligns | userspace/libicda.c:393 | the padding leads to an aligned offset less than one alignment away |
| Arena.PadIsLeast | userspace/libicda.c:393 | no aligned offset lies in between |
| Arena.AddressAligned | userspace/libicda.c:398 | a block's address is aligned exactly when the buffer's own address is |
| Arena.Arena.Init | userspace/libicda.c:372-379 | a missing buffer is refused unless the capacity is zero |
| Arena.Arena.Alloc | userspace/libicda.c:381-401 | over any run since the last reset blocks are in bounds, aligned and disjoint; a block goes to the least place that fits, and a request is refused exactly when no place does, changing nothing |
| Arena.Arena.Reset | userspace/libicda.c:403-406 | resetting forgets every block |
| Arena.Arena.Remaining | userspace/libicda.c:408-416 | used and remaining bytes make up the capacity |

## Left out

- System calls, messages, shared memory, devices, the clock and the network: file contents, device answers and name resolution are parameters or nondeterministic inputs.
- AudioDaemon.Daemon.Run: tracks whose frame numbers pass 32 bits within a window of their end are only reported (`TooLong`), not followed; likewise a run after a read outside the window buffer, whose result is unspecified. The device takes whole frames.
- AudioDaemon.Daemon.HandleCommand: the notification name shown for a track is not modelled.
- PageBuilder.Page.BuildRenderText: which address an anchor tag carries is a parameter; attribute extraction and resolution of relative addresses are not modelled.
- PageView.ClickFollowsPaint: covers pixels at least one margin from the left and from the first line's top, the others being `PageView.LeftMarginFollowsUnseen` and `PageView.TopMarginIsDead`; the context menu drawn over a page, the clipping of glyphs at the window's right edge and toolbar clicks are not modelled.
- WrapLoops.Draw: the clipping of glyphs against the canvas edge is not modelled; the cells are those handed to the font.
- Ico.IcoParse: decode limits of 2^26 and more with a pixel buffer of 256 MiB and more are excluded, because the source's signed row sizes overflow there; what a read outside the file yields is not modelled.
- IcoWriter.WriteIco: sides of 256 and more are refused by the writer's byte-sized fields and are not modelled.
- Editor.Buffer.InsertChar: the character is not NUL; text containing NUL is not modelled.
- Url.UrlSplit: the buffers' contents after a failure are not stated.
- Widgets.SliderValueInRange: the differences of coordinates and of range ends are taken to fit 32 bits; the products are modelled as cut to them.
- Arena.Arena.Alloc: addresses are offsets into the buffer.
- Themes, window chrome, shadows, gradients, menus, fonts and icon tables: no deep invariant, or static data.
- Float-based shapes of the icon generator (circle, ellipse, triangle, polygon) and the sound generator.
- Disk manager, desktop, audio player, settings application, shell: event loops; their edit code repeats the editor's.
- String copy helpers, hit tests, layout helpers, the ring buffer, the hexadecimal formatter: true but easy.
- The text field's backspace, whose loop does not remove the character before the cursor; the editor's is modelled.
- Kernel boot code and port input and output.
