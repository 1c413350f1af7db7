# Verification of MySQL Workbench's GIF decoder, and of scanners, codecs and lists of its tools

Dafny models of code that decodes, scans or keeps lists in step, with proofs of what that code is
for. `dafny verify dfyconfig.toml` checks everything. Each class and method follows the original's
fields, branches and loops; the functions beside them say what is meant, and lemmas prove what
follows.

- **GIF decoder** (`ext/Aga.Controls/GifDecoder.cs`). `Bits`, `SubBlocks`, `LzwReference` (the
  dictionary-of-strings decoder of the GIF89a specification), `LzwMachine` (what each code does to
  the arrays, whatever they hold), `LzwArrays`, `LzwSteps`, `LzwDecoder`, `LzwProgress` (the array
  decoder follows the machine, which refines the dictionary decoder), `LzwTheorems` (comparison
  with the specification), `LzwEncoder` (a compressor with counters of its own, undone by the
  decoder) and `LzwStale` (when old contents of the arrays matter),
  `RowPlacement` and `RowCopy` (interlacing and drawing), `GifGrammar` (the blocks of a file, their
  bytes and their meaning to the decoder), `GifLayout` (the same bytes place by place),
  `GifStandard` (what the specification prescribes for them, and when that is the same) and `GifDecoder` (the class). The main result is about whole
  files: `ReadGif` on the bytes of any file of the grammar yields one frame per image, by the
  decoder's rules; under conditions on the blocks alone these are the frames that the specification
  prescribes.
- **Test converter** (`tools/convert_casmine_to_gtest.py`). `BraceScanner`, `ParenScanner`,
  `ArgSplitter`, `ItBlocks`: the fast scanners against one-character automata, and round trips;
  `BraceCounts` and `ArgCounts` say what the automata's states are by counts of characters, and
  `PrintedBlocks` what comes back of blocks as they are written, in both forms.
- **Shell window** (`frontend/common/grt_shell_window.cpp`). `Snippets`: saving and loading with a
  4096-byte line buffer. `ClassHierarchy`: the recursive tree builder.
- **Connection editor** (`frontend/common/server_instance_editor.cpp`). `ConnectionNames`,
  `ServerEditor`: connections, instances and view rows under any sequence of actions.
- **User types** (`frontend/common/user_defined_type_editor.cpp`). `UserTypes`: two text codecs.
- `Sequences` holds the pigeonhole argument that several of these use.

## Where the code differs from its documents

- Line 264 of the GIF decoder advances one interlace pass only, so heights 2 to 4 put rows outside
  the image (`RowPlacement.PermutationIff`); Appendix E of GIF89a has no such exception.
- Line 485 stops at a full table; section 22 and Appendix F of GIF89a let the decoder go on
  (`LzwTheorems.ZerosStopEarly`; `TableFullIff`, `OutgrowsIff` and `PixelsOfSpecification` say
  exactly when it happens, when inside the image, and when it shows).
- Lines 463-468 do not test that the first code is a literal, so a byte of an earlier image can
  show (`LzwTheorems.StaleByteShows`); `LzwStale.IndependentIff` says exactly for which codes.
- Line 568 tests for -1, but a read at the end of the stream returns 0: a truncated sub-block is read
  forever (`SubBlocks.ReadLoopEndsIffBytesExist`).
- Data that end before the image is full are consumed with their terminator, and line 769 then skips
  what follows the image (`ReadImageData`, `LzwTheorems.ShortDataRunOut`).
- A graphic control stays in force for all later images; section 23 of GIF89a limits it to the next
  block that renders something. `GifGrammar.ControlAfter` is the code's rule,
  `GifStandard.ScopedAfter` that of section 23, and `GifStandard.ControlScopeIff` says exactly when
  the images have the same delay and transparent colour under both.
- A first snippet line longer than 4093 characters, or a later one longer than 4092, loses
  characters when loaded (`Snippets.LongLineIsLost`).
- A test block without parentheses is lost where one with parentheses follows it
  (`PrintedBlocks.AllComeBackIff`), and one whose name has a brace does not come back
  (`PrintedBlocks.ExtractsPrintedIff`).
- The suggestion for a copied name tests number 1 twice (`grtpp_util.h`, lines 126-131); the result
  is not affected.

## Model

| member | source | states |
|---|---|---|
| LzwTheorems.PrefixOfSpecification | ext/Aga.Controls/GifDecoder.cs:485-486 | From any table state and bit position, what is decoded is a prefix of what the decoder of Appendix F of GIF89a (which goes on with a full table) delivers; the two outcomes are equal if and only if no data code meets a full table |
| LzwTheorems.TableFullIff | ext/Aga.Controls/GifDecoder.cs:452-486 | A data code meets a full table if and only if some run of data codes since a clear code outgrows it (`LongRun`), which is seen by counting codes, without building strings |
| LzwTheorems.ZerosStopEarly | ext/Aga.Controls/GifDecoder.cs:485-486 | Witness, for every code size 2 to 11: on 12 * 4098 zero bits or more the decoder stops early and delivers strictly less than the specification's |
| LzwTheorems.PixelsOfSpecification | ext/Aga.Controls/GifDecoder.cs:485-510 | The pixels of an image equal the specification's if and only if the specification's further pixels in it are all zero, as missing ones are |
| LzwTheorems.OutgrowsIff | ext/Aga.Controls/GifDecoder.cs:452-486 | A data code meets a full table before the image is full if and only if a scan says so that looks at codes and string lengths only (`Outgrows`) |
| LzwTheorems.PixelsWithinTable | ext/Aga.Controls/GifDecoder.cs:485-510 | When it does not, the pixels of the image are the specification's |
| LzwTheorems.MaskFitsIff | ext/Aga.Controls/GifDecoder.cs:405-411 | Through the whole filling of the table the mask equals 2^code_size - 1 if and only if the code size byte is at least 2 (for bytes up to 11) |
| LzwEncoder.DecodeUndoesEncode | ext/Aga.Controls/GifDecoder.cs:418-505 | The compressor of Appendix F, which counts its own strings, free code and code size, is undone: for every code size 2 to 11 and all pixels of that many bits, the decoder delivers the pixels and stops at the end code, whether it would go on with a full table or not |
| LzwEncoder.ReachedWidths | ext/Aga.Controls/GifDecoder.cs:489-496 | After any number of codes of any data, on arrays with any old contents: 2^(code_size-1) <= available < 2^code_size while available < 4096, code_size = 12 at 4096, and the mask is 2^code_size - 1 |
| LzwEncoder.NextWidth | ext/Aga.Controls/GifDecoder.cs:489-496 | The same of the next code of the dictionary decoder, for every table |
| LzwEncoder.HeldByOne | ext/Aga.Controls/GifDecoder.cs:490-496 | No other width does this |
| LzwStale.IndependentIff | ext/Aga.Controls/GifDecoder.cs:395-505 | What an image shows, and how its decoding ends, is the same for all contents that earlier images may have left in the prefix and suffix arrays if and only if its codes do not pass a scan (`FreshFirst`): clear codes and single literals with a clear code after each, then the first free code while the image is not full |
| LzwStale.RunAlike | ext/Aga.Controls/GifDecoder.cs:446-498 | Once the image has written a table entry, everything that follows depends only on cells it has written itself, also after a first code that is not a literal |
| LzwStale.StepAlike | ext/Aga.Controls/GifDecoder.cs:446-498 | Every code but such a first free code does the same to two machines that agree on the cells written so far, and keeps them in agreement |
| LzwStale.WalkAlike | ext/Aga.Controls/GifDecoder.cs:476-480 | A walk from a written code stays within written cells, even where it does not end |
| LzwStale.FreshShows | ext/Aga.Controls/GifDecoder.cs:463-468 | When the codes pass the scan, the pixel at which it ends is the old content of the first free cell |
| LzwStale.UnwrittenIff | ext/Aga.Controls/GifDecoder.cs:463-468 | The dictionary decoder stops at a first code whose cell is unwritten, before the image is full, if and only if the codes pass the scan; the scan's pixel is the first one it does not deliver |
| LzwTheorems.StaleByteShows | ext/Aga.Controls/GifDecoder.cs:463-468 | Witness: a four-byte image whose one pixel is whatever an earlier image left in the suffix array |
| LzwTheorems.ShortDataRunOut | ext/Aga.Controls/GifDecoder.cs:431-434 | Counterexample for data that end before the image is full: decoding consumes the terminator itself, and the skip that follows swallows the bytes after the image |
| LzwArrays.LoadStep | ext/Aga.Controls/GifDecoder.cs:437-440 | Adding the next byte above the buffered bits keeps the accumulator equal to the unread bits of the little-endian number formed by all payload bytes, and below 2^19 |
| LzwArrays.TakeStep | ext/Aga.Controls/GifDecoder.cs:446-448 | Mask and shift yield exactly bits [p, p + code_size) of that number, p being the sum of all earlier widths, and leave the accumulator at p + code_size |
| LzwArrays.NextNumber | ext/Aga.Controls/GifDecoder.cs:490-496 | The test `(available & code_mask) == 0` holds exactly when the next free code needs one more binary digit |
| LzwArrays.GrownOk | ext/Aga.Controls/GifDecoder.cs:489-496 | Counting a new entry keeps width = binary length of the next free code (12 at a full table) and mask = 2^width - 1 |
| LzwArrays.WalkStep | ext/Aga.Controls/GifDecoder.cs:476-480 | In a well-formed table a code above clear is its prefix code's string and one byte, its prefix code is smaller and is again a code that stands for a string, and no string is longer than the table allows |
| LzwArrays.AddEntry | ext/Aga.Controls/GifDecoder.cs:487-488 | Storing a prefix code and a suffix byte adds exactly the string of that code and the byte, and keeps every earlier entry what it was |
| LzwArrays.StartOk | ext/Aga.Controls/GifDecoder.cs:405-416 | The counters and arrays as set up represent the empty dictionary, whatever the other cells hold |
| LzwSteps.ClearStep | ext/Aga.Controls/GifDecoder.cs:454-462 | A clear code leaves the empty dictionary, in the arrays as they are |
| LzwSteps.FirstStep | ext/Aga.Controls/GifDecoder.cs:463-469 | A first code below clear is a literal; the first free code shows the cell that happens to be there, and only the ranges of the counters survive it |
| LzwSteps.DataStep | ext/Aga.Controls/GifDecoder.cs:487-497 | A data code stores exactly the previous string extended by the first byte of the present one |
| LzwSteps.StringParts | ext/Aga.Controls/GifDecoder.cs:470-480 | The string the stack assembles, for a known code and for the first free code, is that of the dictionary decoder, and fits in 4096 cells |
| LzwMachine.StepSound | ext/Aga.Controls/GifDecoder.cs:452-498 | Every code, whatever the arrays hold, keeps the ranges of counters and entries, width and mask included |
| LzwMachine.WalkIsLookup | ext/Aga.Controls/GifDecoder.cs:476-481 | In a well-formed table the walk ends below clear and has pushed exactly the string of its code, but for the first byte |
| LzwMachine.PushedIsString | ext/Aga.Controls/GifDecoder.cs:470-481 | What a code of the stream pushes, first free code included, is its string but for the first byte, in at most 4095 cells |
| LzwMachine.StepRefines | ext/Aga.Controls/GifDecoder.cs:452-498 | On arrays that represent a table, a code stops, resets, shows and learns what the dictionary decoder does with it; the first free code as a first code shows its cell |
| LzwMachine.RunRefines | ext/Aga.Controls/GifDecoder.cs:418-505 | The result of a whole run is the dictionary decoder's outcome; after a first code that stands for nothing, the content of its cell comes next |
| LzwDecoder.PushString | ext/Aga.Controls/GifDecoder.cs:476-480 | The loop leaves on the stack exactly the bytes of the walk, or throws exactly when they do not fit |
| LzwDecoder.PushCode | ext/Aga.Controls/GifDecoder.cs:470-481 | The same for a code of the stream, first free code included |
| LzwDecoder.AddString | ext/Aga.Controls/GifDecoder.cs:487-497 | The stores and counter updates are those of the machine |
| LzwDecoder.InterpretData | ext/Aga.Controls/GifDecoder.cs:470-498 | A code that follows another: walk, full-table test, stack bound and stores, in every state |
| LzwDecoder.Interpret | ext/Aga.Controls/GifDecoder.cs:452-498 | For every code and every content of the arrays, signal, stack, arrays and counters are those of the machine |
| LzwProgress.ResultRefines | ext/Aga.Controls/GifDecoder.cs:507-510 | The pixels of the machine's result are the dictionary decoder's, cut at the image size, missing ones zero; up to a first code that stands for nothing, and the content of its cell after them |
| GifDecoder.GifDecoder.NextByte | ext/Aga.Controls/GifDecoder.cs:429-442 | Delivers the next payload byte across sub-block borders; says there is none exactly at the end of the chain |
| GifDecoder.GifDecoder.LoadByte | ext/Aga.Controls/GifDecoder.cs:426-442 | Keeps the loop invariant with one byte more, or finishes as out of data; a 31-bit accumulator never overflows |
| GifDecoder.GifDecoder.NextCode | ext/Aga.Controls/GifDecoder.cs:446-498 | One code taken off and acted on keeps accumulator, arrays, counters and progress in step with the machine |
| GifDecoder.GifDecoder.DecodePixels | ext/Aga.Controls/GifDecoder.cs:418-505 | The decode loop terminates (remaining pixels, unread and buffered bits, unread bytes), and throws, runs out of data and has decoded exactly as the machine |
| GifDecoder.GifDecoder.InitTable | ext/Aga.Controls/GifDecoder.cs:412-416 | Exactly the cells below clear are set, in both arrays |
| GifDecoder.GifDecoder.StartMachine | ext/Aga.Controls/GifDecoder.cs:405-416 | The arrays and counters are then those of the machine at its start |
| GifDecoder.GifDecoder.ClearMissing | ext/Aga.Controls/GifDecoder.cs:507-510 | Exactly the missing pixels become zero |
| GifDecoder.GifDecoder.DecodeImageData | ext/Aga.Controls/GifDecoder.cs:373-512 | For every image and every content of the arrays: the exact pixels, whether an exception is thrown, whether the data run out and where the cursor ends, as the machine has them; hence the dictionary decoder's pixels, unless a first code that stands for nothing is met before the image is full, when the pixels up to it are right and the next one is the content of the first free cell |
| SubBlocks.ReadsBack | ext/Aga.Controls/GifDecoder.cs:556-583 | A chain of sub-blocks written anywhere in a stream is framed, holds the bytes it was made from and ends where its encoding ends |
| SubBlocks.ReadLoopEndsIffBytesExist | ext/Aga.Controls/GifDecoder.cs:565-571 | Whatever sizes the reads return, the read loop ends if and only if the announced bytes exist (a read at the end returns 0, line 568 tests for -1); with them, after at most one round per byte, without them never |
| GifDecoder.GifDecoder.ReadBlock | ext/Aga.Controls/GifDecoder.cs:556-583 | Whatever positive sizes the reads return, the buffer holds exactly the next sub-block, the cursor is after it and the rest of the buffer is unchanged |
| GifDecoder.GifDecoder.FillBlock | ext/Aga.Controls/GifDecoder.cs:564-571 | The same for the read loop alone; the rounds it takes are those of `SubBlocks.Filled` |
| GifDecoder.GifDecoder.Skip | ext/Aga.Controls/GifDecoder.cs:858-864 | Terminates, with the cursor just past the terminator of the chain |
| GifDecoder.GifDecoder.ReadImageData | ext/Aga.Controls/GifDecoder.cs:768-769 | After decoding and skipping without an exception, whatever the codes, the cursor is just past this image's terminator if and only if decoding did not run out of data or the stream ends there; otherwise the following bytes are skipped as sub-blocks |
| RowPlacement.FollowsFourPasses | ext/Aga.Controls/GifDecoder.cs:256-284 | Outside heights 2 to 4, source row k of an interlaced image goes to the k-th line of the four-pass order of Appendix E of GIF89a |
| RowPlacement.FollowsFourPassesIff | ext/Aga.Controls/GifDecoder.cs:256-284 | All rows do if and only if the height is not 2, 3 or 4 |
| RowPlacement.RowOfIsItsPlace | ext/Aga.Controls/GifDecoder.cs:256-284 | At every height, the row that a prescribed frame gives to a line is that line's place in the order of Appendix E |
| RowPlacement.PermutationIff | ext/Aga.Controls/GifDecoder.cs:259-284 | The rows are mapped one-to-one onto the lines of the image if and only if it is not an interlaced image of height 2, 3 or 4 |
| RowPlacement.RowOfLine | ext/Aga.Controls/GifDecoder.cs:262-284 | The inverse line-to-row mapping undoes the row-to-line mapping |
| RowPlacement.LineOfRow | ext/Aga.Controls/GifDecoder.cs:262-284 | And the other way round |
| RowPlacement.LinesDiffer | ext/Aga.Controls/GifDecoder.cs:262-284 | No two source rows share a line, at any height |
| RowPlacement.PassStep | ext/Aga.Controls/GifDecoder.cs:262-284 | The pass, increment and next-line variables compute the line of each row, at every height |
| RowCopy.DeinterlacedCell | ext/Aga.Controls/GifDecoder.cs:255-308 | Where rows are permuted, a screen cell takes the colour of its own deinterlaced pixel exactly when the image covers it and that colour is not zero |
| RowCopy.CopyRows | ext/Aga.Controls/GifDecoder.cs:255-308 | For every position, size and screen, every cell of the screen is as its pixel says or unchanged, cells after the screen are unchanged, and every index is in bounds; at heights 2 to 4, too |
| RowCopy.DrawLine | ext/Aga.Controls/GifDecoder.cs:286-307 | One source row, clipped at the right edge, changes exactly its own stretch |
| RowCopy.CopyStretch | ext/Aga.Controls/GifDecoder.cs:296-306 | The inner loop writes exactly the non-zero colours of the pixels of the stretch |
| RowCopy.RowStep | ext/Aga.Controls/GifDecoder.cs:286-307 | A drawn row keeps the meaning of all cells, those of earlier rows included |
| GifDecoder.GifDecoder.ReadGif | ext/Aga.Controls/GifDecoder.cs:344-366 | For every file laid out by the grammar of Appendix B of GIF89a: status OK, cursor just past the trailer, one frame per image, showing at its place the pixels of the decoder that stops at a full table, in the colours and under the control that the decoder has in force; the loop count that the NETSCAPE2.0 blocks set; and, where every image conforms and needs no control but its own, exactly the frames the specification prescribes |
| GifStandard.ControlScopeIff | ext/Aga.Controls/GifDecoder.cs:687-700 | Every image has the delay and transparent colour that section 23 of GIF89a gives it if and only if no image follows another rendering block, without a graphic control between them, while a control with a delay or a transparent colour is in force |
| GifStandard.ControlOutlivesItsImage | ext/Aga.Controls/GifDecoder.cs:687-700 | Counterexample family: a control with a delay or a transparent colour and two images; both images have it, where section 23 gives it to the first |
| GifStandard.DelayOutlivesItsImage | ext/Aga.Controls/GifDecoder.cs:783 | With a delay, the second frame shows it, and no frames the decoder makes are those prescribed |
| GifStandard.FramesOfSpecification | ext/Aga.Controls/GifDecoder.cs:627-791 | When every image conforms and has its own control or needs none, the frames the decoder makes are those the specification prescribes, and only those: section 23 for controls, Appendix F for pixels, Appendix E for lines |
| GifStandard.ConformingPixels | ext/Aga.Controls/GifDecoder.cs:485-510 | An image in which no data code meets a full table, by the scan of its data, has the specification's pixels |
| GifLayout.CompressedImage | ext/Aga.Controls/GifDecoder.cs:373-512 | An image block whose data are compressed pixels, cut into sub-blocks anywhere, is acceptable and shows these pixels, by the decoder and by the specification |
| GifLayout.ImageAfterControl | ext/Aga.Controls/GifDecoder.cs:687-791 | At file level: an image right after a graphic control has the control's delay in milliseconds, and its index is transparent exactly when bit 0 of the packed byte is set |
| GifLayout.ImageLayout | ext/Aga.Controls/GifDecoder.cs:731-741 | The bytes of an image block, place by place: position and size low byte first, packed byte, table of 3 * 2^(n + 1) bytes if bit 7 is set, code size, data |
| GifLayout.ControlLayout | ext/Aga.Controls/GifDecoder.cs:687-700 | The eight bytes of a graphic control |
| GifLayout.ApplicationLayout | ext/Aga.Controls/GifDecoder.cs:649-662 | The bytes of an application extension |
| GifLayout.OtherLayout | ext/Aga.Controls/GifDecoder.cs:641-668 | The bytes of any other extension |
| GifLayout.NetscapeName | ext/Aga.Controls/GifDecoder.cs:655-659 | The name that sets the loop count is NETSCAPE2.0, byte by byte |
| GifLayout.FileHead | ext/Aga.Controls/GifDecoder.cs:707-812 | Signature, version, screen size and packed byte at their places in the file |
| GifLayout.FileTail | ext/Aga.Controls/GifDecoder.cs:627-682 | The global table if bit 7 of the packed byte is set, the blocks and the trailer at their places |
| GifLayout.TableColour | ext/Aga.Controls/GifDecoder.cs:613-616 | Colour i of a table is made of its bytes 3i (red), 3i + 1 (green) and 3i + 2 (blue); past them it is 0 |
| GifGrammar.PackedBits | ext/Aga.Controls/GifDecoder.cs:737-741 | Flags and numbers in packed bytes, as the masks 0x80, 0x40, 0x1c, 7 and 1 and the shift take them out |
| RowCopy.DrawnIsPlaced | ext/Aga.Controls/GifDecoder.cs:255-308 | Outside interlaced heights 2 to 4 the screen is drawn if and only if every pixel is at its own place |
| GifDecoder.GifDecoder.ReadContents | ext/Aga.Controls/GifDecoder.cs:627-682 | The same from the first block on; format error if and only if something other than the trailer follows the blocks; the global colour table ends as it was read; frameCount equals the number of frames; the loop count is that of the blocks |
| GifDecoder.GifDecoder.ReadOneBlock | ext/Aga.Controls/GifDecoder.cs:631-680 | Every round of the loop consumes exactly one block and has exactly its effect, or ends the loop |
| GifDecoder.GifDecoder.ActOn | ext/Aga.Controls/GifDecoder.cs:634-680 | Image, extension, trailer, zero byte and other bytes, each with its effect on cursor, status, control, loop count and frames |
| GifDecoder.GifDecoder.ReadImage | ext/Aga.Controls/GifDecoder.cs:729-791 | One image: without a colour table a format error and no frame; else one frame that shows it, the transparent slot restored, the cursor after its data |
| GifDecoder.GifDecoder.DrawTransparent | ext/Aga.Controls/GifDecoder.cs:754-787 | The transparent colour is zero while drawing and the table is afterwards what it was |
| GifDecoder.GifDecoder.ReadActiveTable | ext/Aga.Controls/GifDecoder.cs:737-750 | The local table if there is one, else the global one |
| GifDecoder.GifDecoder.ReadDescriptor | ext/Aga.Controls/GifDecoder.cs:731-741 | Position and size from the stream's first eight bytes, low byte first, the packed byte after them, the interlace flag from its bit 6 |
| GifDecoder.GifDecoder.ReadGraphicControlExt | ext/Aga.Controls/GifDecoder.cs:687-700 | From the bytes of the stream: the transparent index is the fourth byte after the size, transparency bit 0 and disposal bits 2 to 4 of the first (never 0), the delay ten times the two between |
| GifDecoder.GifDecoder.ReadApplicationExt | ext/Aga.Controls/GifDecoder.cs:649-662 | Consumes the whole extension; only NETSCAPE2.0 touches the loop count |
| GifDecoder.GifDecoder.ReadNetscapeExt | ext/Aga.Controls/GifDecoder.cs:817-830 | Consumes the chain; the last sub-block that begins with 1 sets the loop count, a zero terminator included in the look |
| GifDecoder.GifDecoder.ReadExtension | ext/Aga.Controls/GifDecoder.cs:641-668 | Consumes exactly the extension; only a graphic control changes the control, only a NETSCAPE2.0 block the loop count |
| GifDecoder.GifDecoder.ReadColorTable | ext/Aga.Controls/GifDecoder.cs:591-622 | Red, green and blue of colour i are the bytes 3i, 3i + 1, 3i + 2 of the stream from the cursor on, under 0xff; 0 past the table; a short table is a format error and no table |
| GifDecoder.GifDecoder.ReadShort | ext/Aga.Controls/GifDecoder.cs:835-839 | Little-endian 16 bits, and the negative results at the end of the stream |
| GifDecoder.GifDecoder.ReadSignature | ext/Aga.Controls/GifDecoder.cs:707-716 | Format error if and only if the stream does not begin with GIF |
| GifDecoder.GifDecoder.ReadLSD | ext/Aga.Controls/GifDecoder.cs:796-812 | Screen size and packed byte from the bytes of the stream |
| GifDecoder.GifDecoder.ReadHeader | ext/Aga.Controls/GifDecoder.cs:705-724 | Leaves screen size and global colour table of the file, cursor at its first block |
| GifGrammar.FramesStep | ext/Aga.Controls/GifDecoder.cs:631-682 | The frames of a list of blocks, extended by one block, are those of the longer list; so is the control in force |
| GifGrammar.FramesCount | ext/Aga.Controls/GifDecoder.cs:773 | There are as many frames as image blocks |
| GifGrammar.RoundDone | ext/Aga.Controls/GifDecoder.cs:631-682 | One block acted on leads from the state after k blocks to the state after k + 1, or to the end of the loop |
| BraceScanner.FindMatchingBrace | tools/convert_casmine_to_gtest.py:100-159 | The matcher that jumps over comments returns what an automaton returns that sees one character after the other |
| BraceScanner.ScanIsFirstClose | tools/convert_casmine_to_gtest.py:150-157 | The result is the first position where a closing brace in code brings the depth to zero; -1 exactly when there is none |
| BraceScanner.ScanIsLocal | tools/convert_casmine_to_gtest.py:100-159 | The result does not depend on the text after it |
| BraceScanner.ScanShift | tools/convert_casmine_to_gtest.py:100-159 | Text before the start only shifts the result |
| BraceScanner.LineSkips | tools/convert_casmine_to_gtest.py:134-140 | Jumping to the end of the line is what the automaton's line comment state does |
| BraceScanner.BlockSkips | tools/convert_casmine_to_gtest.py:143-148 | Jumping to the first `*/` is what the block comment states do |
| BraceCounts.BareCounts | tools/convert_casmine_to_gtest.py:150-157 | Text without quotes, backslashes and slashes leaves code in code, and the depth changes by the number of opening minus closing braces |
| BraceCounts.QuotedIsSkipped | tools/convert_casmine_to_gtest.py:121-131 | A quoted literal changes neither state nor depth |
| BraceCounts.EscapedIsSkipped | tools/convert_casmine_to_gtest.py:111-119 | Neither does a backslash with the character after it, in code and in quotes |
| BraceCounts.LineIsSkipped | tools/convert_casmine_to_gtest.py:133-139 | Neither does a line comment with its line break |
| BraceCounts.BlockIsSkipped | tools/convert_casmine_to_gtest.py:141-147 | Neither does a block comment, up to its first end |
| BraceCounts.LoneSlashCounts | tools/convert_casmine_to_gtest.py:133-157 | A slash that begins no comment is like any other character |
| BraceCounts.GoesThrough | tools/convert_casmine_to_gtest.py:100-159 | Stretches follow each other: their changes of the depth add up |
| ParenScanner.FindParenEnd | tools/convert_casmine_to_gtest.py:162-204 | Returns what the automaton of the argument splitter finds |
| ParenScanner.ScanIsFirstClose | tools/convert_casmine_to_gtest.py:195-200 | The result is the first position where the depth returns to zero; -1 exactly when there is none |
| ParenScanner.ArgumentsAreClosed | tools/convert_casmine_to_gtest.py:162-204 | The text between the parentheses found is, for the argument splitter, outside strings and balanced in parentheses |
| ArgSplitter.SplitTopLevelArgs | tools/convert_casmine_to_gtest.py:432-488 | The flags and counters split as the state machine does |
| ArgSplitter.JoinUndoesSplit | tools/convert_casmine_to_gtest.py:432-488 | Joining the pieces with commas gives the text back, but for a separating comma at its very end |
| ArgSplitter.RoundTripIff | tools/convert_casmine_to_gtest.py:432-488 | Splitting gives a joined list back if and only if no piece holds a separating comma, every piece but the last closes what it opens, and the last is not empty |
| ArgSplitter.PiecesSplitToThemselves | tools/convert_casmine_to_gtest.py:432-488 | Every non-empty piece splits to itself |
| ArgCounts.StateIsCounts | tools/convert_casmine_to_gtest.py:444-477 | After any text made of bare stretches, quoted literals and escaped characters, the three depths are the numbers of opening minus closing brackets of each kind in the bare stretches, counted one kind at a time |
| ArgCounts.CommaSeparatesIff | tools/convert_casmine_to_gtest.py:479-484 | A comma after such a text separates if and only if all three counts are zero |
| ArgCounts.QuotedIsSkipped | tools/convert_casmine_to_gtest.py:454-464 | A quoted literal leaves the state as it was, brackets and commas in it included |
| ArgCounts.EscapedIsSkipped | tools/convert_casmine_to_gtest.py:444-452 | So does a backslash with the character after it |
| ArgCounts.EscapedInQuotes | tools/convert_casmine_to_gtest.py:444-452 | In a quoted literal as well, the quote itself included |
| ArgCounts.OpenBracketHides | tools/convert_casmine_to_gtest.py:479-484 | Neither another character nor a comma with a bracket of any kind open separates |
| ArgCounts.TwoArguments | tools/convert_casmine_to_gtest.py:432-488 | A balanced first argument, a comma and any rest: the argument, then the arguments of the rest |
| ItBlocks.ExtractItBlocks | tools/convert_casmine_to_gtest.py:742-775 | Repeats one extraction 200 times at most |
| ItBlocks.ExtractNext | tools/convert_casmine_to_gtest.py:750-773 | One round: the header with parentheses anywhere, else without, the brace matched, the text after the closing skipped |
| PrintedBlocks.ExtractsPrinted | tools/convert_casmine_to_gtest.py:750-773 | One printed block of either form, whatever white space its marks have, gives back its name, body and the text after it; for the form without parentheses, where no header with them occurs in the text |
| PrintedBlocks.ExtractsPrintedIff | tools/convert_casmine_to_gtest.py:759-766 | It does if and only if its name has no brace and its own last brace closes its body: line 759 looks for the brace from `$it` on, name included |
| PrintedBlocks.ExtractUndoesPrint | tools/convert_casmine_to_gtest.py:742-775 | Of any number of printed blocks all of one form, followed by text without blocks, names and bodies come back in order, up to the limit; for the form without parentheses, where no header with them occurs in the text |
| PrintedBlocks.DroppedBefore | tools/convert_casmine_to_gtest.py:751-757 | Text before the first header with parentheses is dropped, blocks of the other form included |
| PrintedBlocks.DroppedBeforeBare | tools/convert_casmine_to_gtest.py:754-757 | Without such a header, text before the first header is dropped |
| PrintedBlocks.MixedBlocks | tools/convert_casmine_to_gtest.py:742-775 | Of printed blocks of both forms exactly those come back, in order, that have parentheses or are followed by none that has |
| PrintedBlocks.AllComeBackIff | tools/convert_casmine_to_gtest.py:742-775 | All come back if and only if no block without parentheses stands before one with them |
| PrintedBlocks.CloseSkipped | tools/convert_casmine_to_gtest.py:768-773 | After the body the parenthesis, the semicolon if there is one, and the white space around them go away |
| PrintedBlocks.NothingSkipped | tools/convert_casmine_to_gtest.py:768-773 | Where no parenthesis follows the body, nothing goes away |
| PrintedBlocks.NeverClosed | tools/convert_casmine_to_gtest.py:759-762 | A body whose brace is never closed ends the extraction |
| Snippets.SaveSnippets | frontend/common/grt_shell_window.cpp:850-858 | The loop writes the file that `Snippets.SavedText` describes |
| Snippets.SavedText | frontend/common/grt_shell_window.cpp:850-858 | The file line by line: every line of a snippet after a space, an empty line between snippets |
| Snippets.LoadSnippetsFrom | frontend/common/grt_shell_window.cpp:861-886 | The loop of buffered line reads yields the list of the reading function |
| Snippets.AppendLines | frontend/common/grt_shell_window.cpp:873-875 | The inner loop appends the further lines and consumes the separator |
| Snippets.LoadUndoesSaveIff | frontend/common/grt_shell_window.cpp:850-886 | Loading a saved file gives the same list, titles as after editing, if and only if every snippet's first line has at most 4093 characters and every later line at most 4092; for any number of snippets and any line breaks |
| Snippets.EachSnippetComesBack | frontend/common/grt_shell_window.cpp:866-883 | Place by place: loaded snippet i is saved snippet i, under its first line |
| Snippets.FittingSnippet | frontend/common/grt_shell_window.cpp:866-883 | One snippet whose lines fit comes back whole, with its title, and the reader is at the next one |
| Snippets.LongLineIsLost | frontend/common/grt_shell_window.cpp:866-883 | A snippet with a longer line comes back shorter |
| Snippets.TitleIsTextBeforeBreak | frontend/common/grt_shell_window.cpp:1040-1043 | The title is the text before the first line break, or all of it |
| ClassHierarchy.DepthBoundedIff | frontend/common/grt_shell_window.cpp:1686-1706 | The recursion's depth is bounded if and only if the root class is not below itself, whatever cycles other classes form |
| ClassHierarchy.ClassesTree.ScanSubclasses | frontend/common/grt_shell_window.cpp:1686-1706 | The recursion that adds nodes to the tree in place adds those of the scan function, and terminates |
| ClassHierarchy.ClassesTree.RefreshByHierarchy | frontend/common/grt_shell_window.cpp:1708-1714 | Builds the tree below the root class |
| ClassHierarchy.DescendantsExactlyOnce | frontend/common/grt_shell_window.cpp:1686-1714 | A class is shown if and only if it is a proper descendant of the root class, and then exactly once |
| ClassHierarchy.NodesHangUnderTheirParents | frontend/common/grt_shell_window.cpp:1686-1706 | Every node hangs under the node of its class's parent, and siblings keep the order of the sorted list |
| ConnectionNames.NewName | frontend/common/server_instance_editor.cpp:780-794 | The loop ends with the first of "new connection", "new connection 1", ... that no connection has, one of the first n + 1 for n connections; the texts are spelled out |
| ConnectionNames.DecimalIff | frontend/common/server_instance_editor.cpp:789 | The text of a number is the one text of digits without a leading zero (or "0") whose digits read back give the number |
| ConnectionNames.CandidatesInUse | frontend/common/server_instance_editor.cpp:785-794 | k candidate names in use take at least k connections (distinct decimal numbers, pigeonhole) |
| ConnectionNames.DecimalIsInjective | frontend/common/server_instance_editor.cpp:789 | Different numbers give different names |
| ConnectionNames.NameSuggestion | library/grt/src/grtpp_util.h:120-133 | The suggestion for a copy is the least number from 1 on that gives a free name, found after at most n + 2 tests |
| ServerEditor.Editor.Run | frontend/common/server_instance_editor.cpp:779-898 | After any sequence of selecting, New, Delete, Duplicate, Move Up, Move Down and rename, rows and selection are what the actions make of them one after the other (`ActedAll`), row i shows the name of connection i and every instance's connection is in the list |
| ServerEditor.Editor.Apply | frontend/common/server_instance_editor.cpp:779-945 | Each action: the view it leaves, the connections and instances it adds, removes, swaps or keeps, and the names of the instances it renames |
| ServerEditor.NamesStayDistinct | frontend/common/server_instance_editor.cpp:779-898 | In all runs without a rename, from rows that differ, no two rows ever show one name |
| ServerEditor.MoveBack | frontend/common/server_instance_editor.cpp:875-898 | Moving down undoes moving up and the other way round, wherever the move is possible |
| ServerEditor.DeleteBack | frontend/common/server_instance_editor.cpp:779-873 | Deleting undoes New and Duplicate in the view, up to the selection |
| ServerEditor.Editor.AddInstance | frontend/common/server_instance_editor.cpp:779-812 | Appends one connection and row under the first free name and selects it |
| ServerEditor.Editor.DuplicateInstance | frontend/common/server_instance_editor.cpp:837-873 | Appends a copy under the first free numbered name, and one instance attached to it exactly when the original has one |
| ServerEditor.Editor.DeleteInstance | frontend/common/server_instance_editor.cpp:814-835 | Removes the selected connection, its row and exactly its instances, the rest in order; with the view out of step shows the list again and removes nothing |
| ServerEditor.Editor.RemoveInstancesOf | frontend/common/server_instance_editor.cpp:822-825 | The backward loop leaves exactly the instances of other connections, in order |
| ServerEditor.Editor.ReorderInstance | frontend/common/server_instance_editor.cpp:875-898 | Exchanges the selected connection with its neighbour, if there is one, in list, view and selection |
| ServerEditor.Editor.Rename | frontend/common/server_instance_editor.cpp:929-945 | Renames the selected connection, its row and its first instance, nothing else |
| ServerEditor.Editor.RefreshConnectionList | frontend/common/server_instance_editor.cpp:609-616 | The rows become the names of the connections |
| ServerEditor.Editor.SelectedInstance | frontend/common/server_instance_editor.cpp:627-637 | Finds the first instance of the selected connection, exactly when it has one |
| ServerEditor.OthersAre | frontend/common/server_instance_editor.cpp:822-825 | Of each instance, as many remain as before if it belongs to another connection, else none |
| ServerEditor.StillAttached | frontend/common/server_instance_editor.cpp:822-827 | Removing a connection together with its instances leaves every other instance attached |
| ServerEditor.DeleteUndoesAppend | frontend/common/server_instance_editor.cpp:814-873 | Deleting a connection just added, with the instance copied for it, restores both lists |
| ServerEditor.MovedByOne | library/grt/src/grtpp_value.cpp:295-308 | Taking an item out and inserting it one place on exchanges two neighbours |
| UserTypes.SplitUndoesJoinIff | frontend/common/user_defined_type_editor.cpp:207-222 | Selecting the row that was written gives back type and arguments, for any arguments, if and only if the type has no "(" |
| UserTypes.JoinUndoesSplitIff | frontend/common/user_defined_type_editor.cpp:480-491 | Writing what was read gives the row back if and only if it has no "(", or ends in ")" with something between |
| UserTypes.SplitRow | frontend/common/user_defined_type_editor.cpp:207-222 | What each form of row gives: no "(", arguments up to a final ")", and a row with "(" that does not end in ")" |
| UserTypes.ReadArguments | frontend/common/user_defined_type_editor.cpp:499-511 | The loop gives each piece between commas without surrounding space and quotes |
| UserTypes.WriteArguments | frontend/common/user_defined_type_editor.cpp:518-524 | The loop writes the items quoted, a comma and a space between them |
| UserTypes.ReadUndoesWriteIff | frontend/common/user_defined_type_editor.cpp:499-524 | Reading the written arguments gives the same list, empty, padded and quote-bearing items included, if and only if no item holds a comma |
| UserTypes.UnquotedIs | frontend/common/user_defined_type_editor.cpp:503-508 | A piece is its text without the surrounding white space; a quote at its beginning goes away, and then one at its end |
| UserTypes.TypedArguments | frontend/common/user_defined_type_editor.cpp:499-511 | Any list typed without quotes, with white space around the commas or without, is read as its items, `10, 2` as two |
| UserTypes.ArgumentsText | frontend/common/user_defined_type_editor.cpp:518-524 | The written text spelled out: nothing, one item in quotes, and one more after a comma and a space |
| UserTypes.EditedTypeComesBack | frontend/common/user_defined_type_editor.cpp:207-222 | A type and its argument list survive being written, selected and opened for editing |

## Left out

- Compositing a frame with earlier ones by disposal (GifDecoder.cs 166-253), `Bitmap`, `Graphics` and colour objects: an image is drawn on arbitrary starting contents, one packed colour per cell.
- I/O exceptions and real streams; a byte string with a cursor takes their place. Reads of a sub-block return any positive size.
- GifDecoder.GifDecoder.ReadBlock: requires that announced bytes exist, because the original loops forever on a truncated sub-block (`SubBlocks.ReadLoopEndsIffBytesExist`).
- GifDecoder.GifDecoder.DecodeImageData: requires a code size byte of 2 to 11. For 0 and 1 the mask is wrong (`LzwTheorems.MaskFitsIff`); of the larger ones, 12 shows one pixel for each run of codes below 4096 and stops at the second code of a run, and 13 to 30 overrun the tables when they are set up. Images of 2^31 pixels and more are left out as well, and truncated sub-blocks as for `ReadBlock`.
- GifDecoder.GifDecoder.ReadGif: the screen must not be empty, and three array cells for each of its pixels must have a 32-bit count (`GifGrammar.ScreenFits`); otherwise the original cannot allocate its bitmap or its array. Files outside the grammar are not described.
- GifDecoder.GifDecoder.ReadImageData: when decoding can run out of data, what follows the image must be framed, or the skip would read a truncated sub-block forever.
- GifDecoder.GifDecoder.ReadNetscapeExt: the loop count, here and for whole files, is stated when every sub-block of these extensions has at least three bytes; otherwise the original takes the missing bytes from whatever the buffer held before.
- GifDecoder.GifDecoder.ReadImage: with transparency in force and no colour table the original fails on a null reference; the contract requires a table then. Disposal, the last frame's state and the background colour, which only compositing uses, are left out.
- GifDecoder.GifDecoder.ReadActiveTable: leaves out the background colour.
- GifDecoder.GifDecoder.ReadHeader: leaves out the background colour, which the original looks up in the global table.
- GifDecoder.GifDecoder.ReadColorTable: the one read of a table is taken to deliver all bytes that are there; the original takes a shorter read for a format error.
- GifDecoder.GifDecoder.ReadContents: stated for streams that begin with blocks of the grammar whose images all have a colour table; `ReadImage` says what one without does. What is read from damaged blocks is not described.
- GifStandard.ControlScopeIff: compares delay and transparent colour; disposal methods only matter to compositing.
- The arrays `prefix`, `suffix` and `pixelStack` exist from construction on instead of from the first image; their contents are arbitrary in every statement.
- The rest of the test converter: regular-expression rewriting and file handling. The header expression of a block is modelled in full, its classes on ASCII text.
- `base::replaceString`, `fgets`, `g_strsplit` and `g_strstrip` have their plain definitions; files and texts hold no NUL.
- Snippets.SaveSnippets: snippets that come from the program's own file, before the user's, are not part of the list.
- ClassHierarchy.ClassesTree.ScanSubclasses: member nodes, captions, icons are left out. It requires that the root class is not below itself, because the original recurses without end otherwise (`ClassHierarchy.DepthBoundedIff`).
- ClassHierarchy.ClassesTree.RefreshByHierarchy: the sorting of the list is left out; the list is given in its order.
- ServerEditor.Editor.AddInstance: drivers, parameters and owners are not modelled.
- ServerEditor.Editor.DuplicateInstance: copied parameters, host identifier, login and server info are not modelled.
- ServerEditor.Editor.Run: instances must be attached to listed connections at the start; the original removes only those with no connection at all.
- ServerEditor.Editor.Rename: the trimmed text and the panel's version of it are parameters.
- Selection after a deletion is the row above, none for row -1, as the view is asked to do.
- All widgets, drawing, wizards, the Python debugger, passwords, remote access and generated files.
