# bwVNC codecs, ciphers and buffer machines

bwVNC carries a set of self-contained machines around its network and user-interface code: compressors, ciphers, a
hash, parsers and ring buffers.  This project models them in Dafny, in the form the C code has (loops over buffers
stay loops over arrays, records that are updated in place are classes), and proves what each is for.

| module | models |
|---|---|
| `LzoFormat`, `LzoRoundTrip`, `LzoFailures`, `LzoDecompress`, `LzoCompress`, `WordBits` | LZO1X: the stream format, its meaning, what is refused, the safe decompressor in place, the greedy compressor in chunks, and the size bound |
| `LzoAdler` | the Adler-32 checksum with deferred reduction |
| `MicroUiFrame`, `MicroUiStacking`, `MicroUiPool` | microui's command list with its jump records, the stacking order, and its least-recently-updated pools |
| `ZywrleCells`, `ZywrleWavelet`, `ZywrleBlocks`, `ZywrleFlat`, `ZywrleColor`, `ZywrlePacking`, `ZywrleBorder`, `ZywrleCodec`, `Rectangles` | ZYWRLE: the in-place wavelet transform, the subband order, the unaligned border, and the whole way there and back |
| `Des`, `DesStandard`, `DesKeySchedule`, `DesCipher`, `VncAuth` | DES with its permutations, tables and key schedule, block and CBC encryption in place, stored passwords |
| `Base64Text`, `Base64Codec` | base64 printing and parsing |
| `Sha1`, `Sha1Example`, `Sha1Stream` | SHA-1, one-shot and streaming |
| `ModularPower` | 64-bit modular multiplication and exponentiation, and the key agreement built on them |
| `TrleFormat`, `TrleRoundTrip`, `TrlePainting`, `TrleBuffer`, `TrleFailures`, `TrleDecoder` | TRLE tiles: what their bytes mean, how they are written, and the decoder that paints them |
| `AudioRing` | the playback ring buffer as a bounded queue |
| `Keysym` | keysym and Unicode lookup |
| `Bytes`, `Arith` | bytes, powers of two and the arithmetic the others share |

Machine words are numbers with every truncation written out, except where the bits themselves matter (DES and SHA-1),
which use bit-vectors; `unsigned long` has 64 bits.  Pointers are positions in arrays.  `dafny verify dfyconfig.toml`
checks everything.

## Model

| member | source | states |
|---|---|---|
| `LzoCompress.Compress` | common/minilzo.c:4883-4947 | For every input: the output has at most n + n/16 + 4 bytes (the promised room is n + n/16 + 67), and decoding it with any room for at least n bytes returns OK, has consumed the whole stream and yields the input, byte for byte |
| `LzoDecompress.DecompressSafe` | common/minilzo.c:5607-6030 | For every stream and every output buffer, however malformed: both buffers stay in bounds, status and output are those of the value-level decoder `Decode`, and nothing past the reported length has changed |
| `LzoRoundTrip.StreamDecodes` | common/minilzo.c:5607-6014 | The stream of any list of literal runs and matches decodes to the text it stands for: all four forms of match, the two without a marker included, wherever each can stand, overlapping matches, runs counted in every place their count can be, and either kind of first byte; bytes behind the end are reported |
| `LzoRoundTrip.PrefixDecodes` | common/minilzo.c:5666-6009 | After the bytes of any prefix of the instructions the decoder has written exactly their text and waits for the literals announced in the last match |
| `LzoRoundTrip.MatchDecodes` | common/minilzo.c:5735-5906 | A match of any of the four forms is read back with its length and its distance, its bytes are appended, and its spare bits announce the literals that follow |
| `LzoRoundTrip.M1Takes` | common/minilzo.c:5908-5936 | A token below 16 is a match: of three bytes at a distance from 0x801 on behind a literal run, of two bytes at a distance from 1 on behind trailing literals |
| `LzoRoundTrip.MatchTakes` | common/minilzo.c:5735-5906 | With or without room and with or without the bytes it copies: what a match of any form asks to be copied |
| `LzoRoundTrip.LiteralsDecode` | common/minilzo.c:5655-5735 | Literal runs are read back wherever their count is kept: in the first byte of the stream, in a previous match, in one byte, or in an extended count |
| `LzoRoundTrip.OpeningDecodes` | common/minilzo.c:5655-5664 | A first byte above 17 counts the literals that follow it |
| `LzoRoundTrip.ReadExtension` | common/minilzo.c:5672-5682 | An extended count of any size is summed up to the number written, without coming near the overflow test |
| `LzoRoundTrip.TwoBytesBehindTrailing` | common/minilzo.c:5908-5936 | A stream whose second match is two bytes behind a single literal decodes to its eleven bytes |
| `LzoRoundTrip.EndDecodes` | common/minilzo.c:5899-5900 | The end marker, met between tokens, ends decoding with the output written so far, with OK if it is the end of the stream and with the unused-input error otherwise |
| `LzoRoundTrip.EveryEnd` | common/minilzo.c:5841-5900 | So does any token of the farthest form with distance zero, whatever its count and its spare bits |
| `LzoFailures.TooSmall` | common/minilzo.c:5684-5961 | With less room than the text needs, every stream ends with the output-overrun error, having written a beginning of the text |
| `LzoFailures.ReachesBack` | common/minilzo.c:5942-5945 | The first match that reaches back before the output stops decoding with the look-behind error; what came before it has been written |
| `LzoFailures.CutShort` | common/minilzo.c:5620-5961 | Every proper beginning of every stream ends with the input-overrun error, having written a beginning of the text |
| `LzoDecompress.CopyDisjoint` | common/minilzo.c:5942-5961 | A match copy that does not reach into its own output is a slice of what is there |
| `LzoDecompress.CopyWide` | common/minilzo.c:5942-5961 | The 8-, 4- and 1-byte copies at distance at least 8 write what copying byte by byte writes |
| `LzoDecompress.CopyBytes` | common/minilzo.c:5983-5985 | The byte-at-a-time loop is right for every overlap |
| `LzoDecompress.CopyLiterals` | common/minilzo.c:5684-5700 | The block copies of literals write exactly the run |
| `LzoDecompress.CountZeros` | common/minilzo.c:5672-5682 | The loop over zero bytes returns the extended count, or the overrun it meets first |
| `LzoDecompress.MatchToken` | common/minilzo.c:5763-5961 | Every match token does in place what the value-level step does: counts, distances, end marker, look-behind and room tests |
| `LzoDecompress.Advance` | common/minilzo.c:5666-6009 | From each label of the goto-linked loops to the next, status and output agree with the value-level step |
| `LzoDecompress.Begin` | common/minilzo.c:5655-5664 | The special first byte |
| `LzoCompress.XorWords` | common/minilzo.c:4726-4736 | Exclusive or and trailing zeros of two little-endian words tell how many bytes agree before the first difference |
| `WordBits.FirstDifference` | common/minilzo.c:4726-4745 | The bytes two loaded words share are counted by the trailing zeros of their exclusive or, divided by eight; zero means all of them |
| `LzoCompress.MatchLength` | common/minilzo.c:4724-4745 | All bytes of a reported match agree, it stops at a difference or in the last 20 bytes of the chunk, and never reads past the chunk |
| `LzoCompress.CopyOccurrence` | common/minilzo.c:4663-4671 | Copying a match reproduces text that occurred at that distance, also when source and target overlap |
| `LzoCompress.PutMatch` | common/minilzo.c:4822-4875 | The three match forms are written byte for byte as the format has them |
| `LzoCompress.PutRunHeader` | common/minilzo.c:4675-4712 | The count of a literal run goes into the previous match, into one byte, or into an extended count |
| `LzoCompress.PatchEncodes` | common/minilzo.c:4677-4679 | Setting the two spare bits of the last match, wherever it ends, gives the encoding that announces those literals |
| `LzoCompress.EmitMatch` | common/minilzo.c:4672-4876 | Literals and match emitted: the output encodes instructions that stand for the input up to the end of the match |
| `LzoCompress.CompressChunk` | common/minilzo.c:4596-4881 | One chunk of at most 49152 bytes, with literals carried in from the chunk before and out to the next: what was emitted stands for exactly the input minus the bytes carried out |
| `LzoCompress.PutTail` | common/minilzo.c:4911-4945 | The last literals and the end marker complete the stream of the whole input |
| `LzoCompress.TokenSize` | common/minilzo.c:4672-4875 | A run and a match together cost at most 17/16 of the bytes they cover, because a match covers at least four |
| `LzoCompress.EncodeSize` | common/minilzo.c:4672-4875 | The encoding of any instructions is at most one sixteenth longer than their text |
| `LzoCompress.StreamSize` | common/minilzo.c:4911-4945 | A whole stream adds at most four bytes to that |
| `LzoCompress.OutputDecodes` | common/minilzo.c:4911-4945 | The streams the compressor writes, of which the first run may be counted in the first byte, are streams the decoder reads |
| `LzoAdler.Adler32` | common/minilzo.c:3967-3996 | Reducing once in 5552 bytes never overflows 32 bits and gives, for every start value, what reducing after every byte gives |
| `LzoAdler.LimitFits` | common/minilzo.c:3958-3993 | The second sum stays below 2^32 for 5552 bytes after a reduction |
| `LzoAdler.ChecksumJoin` | common/minilzo.c:3967-3996 | Checksumming one piece and then another is checksumming both joined |
| `LzoAdler.Adler32Twice` | common/minilzo.c:3967-3996 | The same for two calls, the first result being the second start value |
| `LzoAdler.ChecksumClosed` | common/minilzo.c:3955-3996 | Both sums in closed form: the start plus the sum of the bytes, and the sum of these sums, modulo 65521 |
| `MicroUiFrame.Context.RunFrame` | bwvnc/microui.c:156-210 | For every well-nested list of calls that begins no container twice, with containers brought to the front and popups opened at any time: the walk ends, and meets exactly the drawings made directly in each root, root after root, each root's in push order and each once; the root list is a permutation of the roots begun, in ascending zindex; the zindex of every container is the one the calls and the click give it, and a root that was clicked is drawn last |
| `MicroUiFrame.FrameShows` | bwvnc/microui.c:193-209 | From any well-formed frame whose jumps are chained in some order of the roots, the walk passes each root's own drawings in that order |
| `MicroUiFrame.DrawKeeps` | bwvnc/microui.c:427-434 | A drawing keeps the invariant: every root's trail through the buffer passes its own drawings and skips those of roots nested in it |
| `MicroUiFrame.BeginKeeps` | bwvnc/microui.c:1052-1056 | So does beginning a root, at top level or inside another |
| `MicroUiFrame.EndKeeps` | bwvnc/microui.c:1071-1079 | So does ending a root: the outer root's trail goes on behind the tail jump |
| `MicroUiFrame.Context.Draw` | bwvnc/microui.c:427-434 | Pushing a drawing takes exactly that step on the buffer |
| `MicroUiFrame.Context.BeginRoot` | bwvnc/microui.c:1052-1068 | begin_root_container takes exactly that step, and updates the hover root |
| `MicroUiFrame.Context.EndRoot` | bwvnc/microui.c:1071-1080 | end_root_container takes exactly that step |
| `MicroUiFrame.Context.SortRoots` | bwvnc/microui.c:151-153 | Sorting permutes the roots into ascending zindex |
| `MicroUiFrame.Context.BringToFront` | bwvnc/microui.c:337-339 | Bringing a root to the front gives it the next zindex, changes no other and keeps the frame well formed |
| `MicroUiFrame.Context.LinkRoots` | bwvnc/microui.c:193-209 | The loop that sets the jumps chains the roots in list order: the first command jumps to the first root, each tail to the next, the last tail to the end |
| `MicroUiFrame.Context.EndFrame` | bwvnc/microui.c:156-210 | mu_end leaves the buffer linked so that the walk shows what each root drew in the order of the sorted list; the hover root gets the next zindex under the guard of the code, and every other container keeps its own |
| `MicroUiFrame.Context.ClickRoot` | bwvnc/microui.c:175-180 | A pressed mouse raises exactly the hover root, unless it is the front one or there is none |
| `MicroUiFrame.Context.OpenPopup` | bwvnc/microui.c:1168-1176 | A popup becomes the hover root and is brought to the front |
| `MicroUiFrame.ClickedLast` | bwvnc/microui.c:175-190 | The root that was clicked comes last in the sorted list |
| `MicroUiFrame.LastOnTop` | bwvnc/microui.c:193-209 | What the last root of the list drew is met after everything else |
| `MicroUiFrame.ClickOnLower` | bwvnc/microui.c:156-210 | A whole frame of two overlapping windows with a click on the lower one: it is drawn over the other |
| `MicroUiStacking.HoverTopmost` | bwvnc/microui.c:1058-1064 | After any calls that raise no root once it has begun, the hover root is the topmost of the roots begun under the mouse; without one there is none |
| `MicroUiStacking.RaisedLast` | bwvnc/microui.c:337-339 | A container has the zindex of the last time it was brought to the front, counted over the whole list of calls |
| `MicroUiStacking.Unraised` | bwvnc/microui.c:337-339 | One that is never brought to the front keeps its zindex |
| `MicroUiStacking.StackedBounded` | bwvnc/microui.c:337-339 | No zindex is ever above the last one given away |
| `MicroUiStacking.ClickOnTop` | bwvnc/microui.c:175-180 | The click puts the hover root strictly above every other container and changes nothing else |
| `MicroUiFrame.Context.NextCommand` | bwvnc/microui.c:437-448 | mu_next_command returns the next record on the walk that is not a jump, and fails exactly at the end |
| `MicroUiFrame.Context.Walk` | bwvnc/microui.c:437-448 | Iterating from NULL ends, having met every drawing of the walk once |
| `MicroUiFrame.Context.Perform` | bwvnc/microui.c:427-434 | Each call of a well-nested frame does to the context what it does to the list of roots, the open roots, the log of drawings and the bytes used |
| `MicroUiPool.Pool.Init` | bwvnc/microui.c:346-358 | A victim is found exactly when some slot has not been touched this frame; it is the first of the slots updated longest ago, and only it changes |
| `MicroUiPool.Pool.Get` | bwvnc/microui.c:361-368 | The first slot with the id, or none when there is none |
| `MicroUiPool.Pool.GetContainer` | bwvnc/microui.c:310-328 | Get or init: ids stay unique, no slot touched this frame is recycled, and NULL is returned exactly for a closed container without a slot or a full pool |
| `MicroUiPool.Pool.Header` | bwvnc/microui.c:926-948 | A click flips whether the tree node is in the pool; another id loses its slot only as the oldest one |
| `MicroUiPool.Pool.GetAll` | bwvnc/microui.c:310-328 | Over all requests of a frame two requests share a slot exactly when they share an id |
| `MicroUiPool.RecycleKeeps` | bwvnc/microui.c:346-358 | Recycling the oldest idle slot keeps ids unique and leaves every touched slot alone |
| `MicroUiPool.Pool.BeginFrame` | bwvnc/microui.c:346-373 | A new frame leaves no slot touched and keeps the pool consistent |
| `ZywrleWavelet.HarrTwice` | common/zywrletemplate.c:313-335 | The step is undone by itself exactly when not (x0 >= 0 and x1 == -128) |
| `ZywrleWavelet.HarrClosed` | common/zywrletemplate.c:313-335 | The step stays within -127..127 |
| `ZywrleWavelet.HarrIsPlain` | common/zywrletemplate.c:313-335 | The bit tests of the code are sign comparisons: the step is the piecewise-linear one its comments describe |
| `ZywrleWavelet.InverseForward` | common/zywrletemplate.c:478-526 | Without the filter, for every level and every width and height divisible by 2^level, the inverse transform gives back any buffer whose color bytes lie in -127..127 |
| `ZywrleWavelet.ForwardClosed` | common/zywrletemplate.c:478-501 | The transform keeps all color bytes in -127..127 |
| `ZywrleWavelet.ApplyTwice` | common/zywrletemplate.c:357-377 | Steps on disjoint pairs, done twice in the same order, cancel |
| `ZywrleWavelet.PassesSound` | common/zywrletemplate.c:357-376 | Each pass touches color bytes of the buffer only, and each of them at most once |
| `ZywrleWavelet.Wavelet` | common/zywrletemplate.c:478-501 | The loops over levels, rows and columns compute the forward transform in place and leave the words behind the coefficients |
| `ZywrleWavelet.InvWavelet` | common/zywrletemplate.c:504-526 | The loops in reverse order compute the inverse transform in place and leave the words behind the coefficients |
| `ZywrleWavelet.WaveletLevel` | common/zywrletemplate.c:357-376 | The pointer loop performs the steps of one row or column |
| `ZywrleWavelet.HarrInPlace` | common/zywrletemplate.c:313-335 | The two bytes become what the plain step makes of them, and no other byte changes |
| `ZywrleBlocks.ApplyPair` | common/zywrletemplate.c:357-377 | In a pass each pair is stepped once, on what it held before the pass |
| `ZywrleBlocks.RowsAt` | common/zywrletemplate.c:357-377 | The row pass of a level puts the two results of a step where its operands were, for the columns and rows of the level |
| `ZywrleBlocks.ColsAt` | common/zywrletemplate.c:357-377 | The column pass does the same one row distance apart |
| `ZywrleBlocks.BlockSplits` | common/zywrletemplate.c:478-501 | A level of the transform puts the four subband values of every block of four coefficients in its corners: rows are stepped first, then columns |
| `ZywrleBlocks.BlockMerges` | common/zywrletemplate.c:504-526 | A level of the inverse puts every block together again, columns first |
| `ZywrleBlocks.LevelElsewhere` | common/zywrletemplate.c:357-377 | Off its grid a level changes no color |
| `ZywrleBlocks.ForwardConstant` | common/zywrletemplate.c:478-501 | For every size and level: a channel that has one value everywhere keeps it on the grid of the last level and is zero at every other place |
| `ZywrleFlat.FlatAnalysis` | common/zywrletemplate.c:753-785 | Analysis of an image of one color leaves the color's coefficient in the pixels of the last subband and zeros in those of all others |
| `ZywrleFlat.GraySquare` | common/zywrletemplate.c:753-785 | Two by two pixels of gray 100 become three zeros and the luminance -28, in this order, and nothing else does |
| `ZywrleFlat.GraySquareBack` | common/zywrletemplate.c:788-822 | Synthesis makes four pixels of gray 100 of those |
| `ZywrleFlat.SmallOrder` | common/zywrletemplate.c:776-783 | The subbands of two by two coefficients go out in the order 3, 2, 1, 0 |
| `ZywrleFlat.YuvPlain` | common/zywrletemplate.c:559-575 | Luminance has twice as much green as red or blue; U is blue and V red against green, all rounded down |
| `ZywrleColor.YuvOdd7` | common/zywrletemplate.c:559-575 | Every pixel and every pair of masks gives Y, U and V within -127..127 |
| `ZywrleColor.ColorNear` | common/zywrletemplate.c:559-586 | With all bits kept, no channel of any color is off by more than one after conversion and back |
| `ZywrleColor.ClampNearest` | common/zywrletemplate.c:555-586 | Values outside a channel become the nearest one of the channel |
| `ZywrleColor.RgbYuv` | common/zywrletemplate.c:711-730 | Every coefficient of the buffer holds the converted pixel of the rectangle, and the words behind the coefficients stay |
| `ZywrleColor.YuvRgb` | common/zywrletemplate.c:732-749 | Every pixel of the aligned part shows its coefficient converted back, and no other pixel changes |
| `ZywrlePacking.SubbandIsBand` | common/zywrletemplate.c:626-643 | The two loops over a subband visit every place with its row and column residues exactly once |
| `ZywrlePacking.GridSplits` | common/zywrletemplate.c:626-643 | The four subbands of a level split the places left by the levels below, and subband 0 is what is left for the next |
| `ZywrlePacking.OrderIsPermutation` | common/zywrletemplate.c:776-783 | All subbands together visit each of the w*h coefficients exactly once |
| `ZywrlePacking.FullOrderIsPermutation` | common/zywrletemplate.c:776-783 | With the border words behind them, each word of the buffer is sent exactly once and there are as many as pixels |
| `ZywrlePacking.Increment` | common/zywrletemplate.c:619-624 | The pointer macro goes to the next pixel, row by row of the image when the row pointer is where the row began, and straight on when it stands behind the rectangle |
| `ZywrlePacking.TransferBand` | common/zywrletemplate.c:626-643 | One subband is moved between the buffer and the next pixels of the rectangle, in either direction |
| `ZywrlePacking.TransferLine` | common/zywrletemplate.c:635-641 | One row of a subband, or the border words |
| `ZywrlePacking.Transfer` | common/zywrletemplate.c:775-783 | The loops over levels and subbands move the whole buffer in the order of the subbands, in either direction and for either start of the row pointer; exactly which pixels are written follows from that start |
| `ZywrlePacking.PixelsFilled` | common/zywrletemplate.c:808-816 | When the rows of the image are walked, each pixel of the (w+uw) by (h+uh) rectangle goes with exactly the word at its number in the order |
| `ZywrlePacking.InPlaceExactly` | common/zywrletemplate.c:619-624 | The word numbers and the pixel numbers of the rectangle agree if and only if the rows walked are as far apart as those of the image |
| `ZywrlePacking.GatherRebuilds` | common/zywrletemplate.c:801-816 | Gathering what was scattered rebuilds the whole buffer |
| `ZywrleBorder.BorderCompletes` | common/zywrletemplate.c:659-699 | The border strips and the aligned part share no pixel and make up the rectangle; no border pixel is met twice and there are as many as words behind the coefficients |
| `ZywrleBorder.LoadUnalign` | common/zywrletemplate.c:659-699 | The three strips are saved behind the coefficients, or restored from there, and nothing else changes; the row pointer is left behind the last strip |
| `ZywrleBorder.BorderRestored` | common/zywrletemplate.c:659-699 | Saving from one image and restoring into another gives exactly the border of the first |
| `ZywrleCodec.Analyze` | common/zywrletemplate.c:753-785 | In place: nothing without an aligned part, otherwise the transformed colors and the border words, in the order of the subbands, in the pixels INC_PTR walks, and every other pixel unchanged |
| `ZywrleCodec.Synthesize` | common/zywrletemplate.c:788-822 | In place, for any distance of the rows: the words read from the rectangle are transformed back and shown, the border words as they are, and nothing outside changes |
| `ZywrleCodec.FillsExactly` | common/zywrletemplate.c:771-783 | Analysis fills the pixels of the rectangle, each with its own word, if and only if there is no border or the rectangle is as wide as the image: otherwise the row pointer LOAD_UNALIGN left behind is never passed |
| `ZywrleCodec.SpillsOver` | common/zywrletemplate.c:771-783 | In all other cases the pixel right of the first row, outside the rectangle, receives the first word of the second row |
| `ZywrleCodec.SmallSpills` | common/zywrletemplate.c:771-783 | So for 3 by 2 pixels in an image 4 pixels wide at level 1: the fourth word belongs to place 4 and goes to place 3, outside |
| `ZywrleCodec.OutsideOverwritten` | common/zywrletemplate.c:771-822 | Synthesis does not bring the pixel behind the first row back, whatever its color was |
| `ZywrleCodec.BorderLost` | common/zywrletemplate.c:771-822 | With a border on the right inside a wider image, the first border pixel comes back with the color of another, named pixel |
| `ZywrleCodec.SynthesisUndoesAnalysis` | common/zywrletemplate.c:753-822 | When the rows of the image are walked, synthesis after analysis without quantisation gives back every border pixel and everything outside the rectangle exactly, and every channel of the aligned part to within one |
| `ZywrleCodec.InverseAgree` | common/zywrletemplate.c:504-526 | The fourth byte of a coefficient has no influence on the colors |
| `ZywrleCodec.ColorsBack` | common/zywrletemplate.c:478-526 | Coefficients in the odd range come back from the transform and its inverse |
| `Rectangles.CalcSize` | common/zywrletemplate.c:701-705 | Clearing the low bits of a side leaves the largest multiple of 2^level |
| `DesKeySchedule.ScheduleInverts` | common/d3des.c:82-116 | For every key and block, with any substitution tables, ciphering under DE1 undoes ciphering under EN0, and the other way round |
| `Des.EncipherReverse` | common/d3des.c:360-385 | For any keys and tables, the cipher with the keys reversed is the inverse of the cipher |
| `Des.EncipherNone` | common/d3des.c:341-407 | Without keys the cipher only exchanges the two halves of the initial permutation |
| `Des.EncipherRound` | common/d3des.c:360-385 | One more key is one more Feistel round between the permutations: one half stays, the other is mixed with the cipher function of it |
| `DesStandard.EncipherStandard` | common/d3des.c:334-407 | With the code's own tables, and for any keys, the cipher is that of FIPS 46-3: the initial permutation by its table, for each key a round of expansion, selection functions and permutation, and the halves exchanged |
| `DesStandard.CipherFunction` | common/d3des.c:361-372 | The eight combined tables looked up with a half rotated by one place give the standard's cipher function rotated by one place |
| `DesStandard.Expansion` | common/d3des.c:361-371 | The groups of six bits the shifts select are those of the expansion E, mixed with the key |
| `DesStandard.Table1` | common/d3des.c:190-206 | Table SP1 is the selection function S1 followed by the permutation P, rotated |
| `DesStandard.Table8` | common/d3des.c:316-332 | So is SP8, and so are the tables between them |
| `DesStandard.InitialPermutation` | common/d3des.c:341-358 | The halves by the standard's table IP are those read off the columns of the block |
| `DesStandard.NarrowTables` | common/d3des.c:190-332 | The code's tables have results of 32 bits, which is all the other theorems ask of tables |
| `Des.RoundsReverse` | common/d3des.c:360-385 | Run with exchanged halves and reversed keys, any number of Feistel rounds goes backwards |
| `Des.Prologue` | common/d3des.c:341-358 | The swaps and rotates are the initial permutation of FIPS 46-3, read off the columns of the block, each half turned by one place |
| `Des.Epilogue` | common/d3des.c:387-406 | The swaps and rotates are the final permutation, although the words hold rubbish above bit 31 |
| `Des.FinalOfInitial` | common/d3des.c:341-406 | The final permutation undoes the initial one |
| `Des.InitialOfFinal` | common/d3des.c:341-406 | And the initial one undoes the final one |
| `Des.HalfRound` | common/d3des.c:361-372 | The shifts, the cooked keys and the eight tables compute the cipher function: expansion, key, selection |
| `Des.OddGroups` | common/d3des.c:361-366 | The first cooked word selects groups 1, 3, 5 and 7 of the expanded half mixed with the round key |
| `Des.EvenGroups` | common/d3des.c:367-371 | The second cooked word selects groups 2, 4, 6 and 8 |
| `Des.CookOddWord` | common/d3des.c:118-148 | A cooked word has one group of six bits in each byte, the groups 1, 3, 5 and 7 in this order, and nothing else |
| `Des.CookEvenWord` | common/d3des.c:118-148 | The next one has the groups 2, 4, 6 and 8 |
| `DesKeySchedule.HalvesByTotal` | common/d3des.c:94-108 | Turning the chosen bits by `totrot` at once is shifting the halves round by round as FIPS 46-3 does |
| `DesKeySchedule.KeyBits` | common/d3des.c:109-112 | Bit j of a round key is bit PC2[j] of the shifted halves, and no other bits are set in its words |
| `DesKeySchedule.KeyBitMirrored` | common/d3des.c:80-93 | Each byte of the key is read from its lowest bit on |
| `DesKeySchedule.PickedBit` | common/d3des.c:109-112 | A picked word holds the chosen bit in each of its 24 places and nothing in the places not yet picked |
| `DesKeySchedule.DesKey` | common/d3des.c:82-116 | rfbDesKey leaves the register loaded with the cooked schedule of the key, reversed for DE1 |
| `DesKeySchedule.ChooseBits` | common/d3des.c:89-93 | The 56 key bits PC1 chooses, each byte read mirrored |
| `DesKeySchedule.TurnHalves` | common/d3des.c:99-108 | Both halves turned by the round's total |
| `DesKeySchedule.PickBits` | common/d3des.c:109-112 | The two raw words of a round |
| `DesKeySchedule.Cookey` | common/d3des.c:118-148 | Every pair of raw words is cooked into its place in the register |
| `DesCipher.Register.TwoByTwo` | common/d3des.c:360-385 | Eight iterations of two rounds in place are sixteen Feistel rounds |
| `DesCipher.Register.Transform` | common/d3des.c:334-407 | The low 32 bits of the two result words are the enciphered block |
| `DesCipher.Register.Des` | common/d3des.c:151-160 | rfbDes replaces eight bytes of the output by the enciphered input bytes, also when the two overlap |
| `DesCipher.Scrunch` | common/d3des.c:162-174 | Eight bytes as two words, the first byte highest |
| `DesCipher.Unscrun` | common/d3des.c:176-188 | Only the low 32 bits of each word are written out |
| `DesCipher.BytesInvert` | common/d3des.c:151-160 | Bytes enciphered and then deciphered are the same bytes, and the other way round |
| `DesCipher.EncipheredBlock` | common/d3des.c:151-188 | The bytes enciphered are those of the enciphered block |
| `DesCipher.BlockHalves` | common/d3des.c:162-174 | The first four bytes are the high half of a block |
| `VncAuth.RfbDes` | common/crypto_included.c:54-78 | encrypt_rfbdes and decrypt_rfbdes, in place or apart: whole blocks are ciphered, a rest of less than a block is left out, nothing else changes |
| `DesCipher.EcbInverts` | common/crypto_included.c:54-78 | Deciphering all blocks undoes enciphering them |
| `DesCipher.EcbBlock` | common/crypto_included.c:54-78 | Each block of the result is the cipher of the same block of the input |
| `VncAuth.CbcBlock` | common/vncauth.c:203-215 | Each block of a chain is the cipher of its own bytes mixed with the block of the result before it, the first one with the initial vector |
| `VncAuth.EncryptBytes2` | common/vncauth.c:203-215 | In place CBC with the key as initial vector, for every length; lengths are rounded up to whole blocks, at least one |
| `VncAuth.CbcInverts` | common/vncauth.c:203-215 | CBC decryption with the deciphering schedule gives back any whole number of blocks |
| `VncAuth.ChainBlock` | common/vncauth.c:209-214 | One block is mixed with the ciphertext before it and enciphered; what went before is untouched |
| `VncAuth.XorBlock` | common/vncauth.c:206-212 | The loops over j mix eight bytes in place |
| `VncAuth.XorByteBits` | common/vncauth.c:206-212 | Mixing sets a bit where exactly one of the two bytes has it |
| `VncAuth.PadPassword` | common/vncauth.c:95-101 | The first eight characters, padded with nulls |
| `VncAuth.StorePassword` | common/vncauth.c:78-113 | The eight bytes written are the padded password enciphered with the fixed key |
| `VncAuth.LoadPassword` | common/vncauth.c:122-153 | No password from a short file, otherwise eight deciphered bytes and a null |
| `VncAuth.StoreThenLoad` | common/vncauth.c:78-153 | Storing and loading returns the first eight characters, padded with nulls |
| `VncAuth.EncryptBytes` | common/vncauth.c:183-201 | The 16 bytes of the challenge are enciphered with the padded password as key |
| `Base64Codec.Ntop` | common/base64.c:125-181 | The text and a null, exactly when both fit, otherwise -1; nothing past the target size is written |
| `Base64Codec.AfterPad` | common/base64.c:268-314 | After the first pad character: accepted exactly when the rest is the padding its digits need and no bits are left over |
| `Base64Codec.PutDigit` | common/base64.c:213-259 | One digit more: the buffer holds the complete bytes and the partial one; failure only when no byte string with these digits fits |
| `Base64Codec.PutMiddle` | common/base64.c:222-249 | Cases 1 and 2: the partial byte is completed and the next begun, or refused when bits would be lost |
| `Base64Codec.Find` | common/base64.c:209-211 | The table search finds the value of a digit, and nothing for other characters |
| `Base64Codec.PrintThenParse` | common/base64.c:125-315 | Parsing what was printed gives the bytes back, into a buffer of exactly their size or any larger one |
| `Base64Codec.ParseThenPrint` | common/base64.c:125-315 | Printing what was parsed gives the text without its whitespace; texts that are refused are those of no byte string that fits |
| `Base64Codec.RefuseEnd` | common/base64.c:268-312 | Wrong padding, a lone digit or left-over bits mean that the text is no byte string's |
| `Base64Codec.RefuseRoom` | common/base64.c:214-253 | Digits that need more room than there is mean that no byte string that fits has this text |
| `Base64Codec.CountedNotCanonical` | common/base64.c:302-304 | Without a buffer left-over bits are not looked at: a text that is no byte string's is counted as one byte |
| `Base64Text.EncodeInjective` | common/base64.c:125-181 | Different byte strings have different texts |
| `Base64Text.DigitsAreSextets` | common/base64.c:213-304 | Digits without left-over bits are the digits of the bytes they denote |
| `Base64Text.SextetsComplete` | common/base64.c:137-176 | The digits of an encoding denote the bytes encoded |
| `Base64Text.OneMore` | common/base64.c:213-259 | How one digit moves on the complete bytes and the partial one, in each of the four states |
| `Base64Text.TableIsAlphabet` | common/base64.c:58-59 | The alphabet string lists the digits of RFC 1521 by value |
| `Base64Text.GroupNumber` | common/base64.c:137-147 | The four digits of three bytes are the digits in base 64 of the number the bytes make |
| `Sha1Stream.HashParts` | common/sha1.c:80-229 | However a message of less than 2^61 bytes is split over calls of SHA1Input, the result is the digest of the padded whole |
| `Sha1Stream.SHA1Context.Input` | common/sha1.c:120-141 | Bytes are added to the message; the index stays the count modulo 64 and the two length words the number of bits; after the result, or an error, only a code |
| `Sha1Stream.SHA1Context.InputByte` | common/sha1.c:129-138 | One byte: a full block is compressed into the hash, otherwise the byte waits |
| `Sha1Stream.SHA1Context.AddLength8` | common/sha1.c:53-58 | The carry between the length words, and the error exactly when both wrap |
| `Sha1Stream.SHA1Context.Result` | common/sha1.c:212-229 | The digest of everything put in, however often it is asked for; an earlier error is returned unchanged |
| `Sha1Stream.SHA1Context.PadMessage` | common/sha1.c:380-413 | Padding in one block or two gives the chained hash of the message, the marker, zeros and the length |
| `Sha1Stream.SHA1Context.Finalize` | common/sha1.c:344-354 | Padding, clearing, and the state in which the digest can be read |
| `Sha1Stream.SHA1Context.Reset` | common/sha1.c:80-98 | An empty message |
| `Sha1Stream.SHA1Context.ProcessMessageBlock` | common/sha1.c:250-323 | The schedule and the eighty steps in place are the compression function of section 6.1.2 of FIPS 180-3 |
| `Sha1Stream.EightySteps` | common/sha1.c:281-315 | The four loops of twenty steps are the eighty steps with their functions and constants |
| `Sha1Stream.Schedule` | common/sha1.c:265-273 | The eighty words of the message schedule |
| `Sha1Stream.HeldFull` | common/sha1.c:129-136 | A block that fills up moves from the waiting bytes into the hash |
| `Sha1Stream.AddLengthExact` | common/sha1.c:53-58 | Below 2^61 bytes the two words count bits exactly and the error never occurs |
| `Sha1Stream.PadTwo` | common/sha1.c:388-397 | With 56 or more bytes waiting, two blocks complete the padded message |
| `Sha1Stream.PadOne` | common/sha1.c:394-411 | Otherwise one block does |
| `Sha1.ChainNext` | common/sha1.c:250-323 | The hash of a longer message is the compression of the next block into the hash so far |
| `Sha1Example.AbcDigest` | common/sha1.c:80-413 | The digest of the message "abc" is the one published with FIPS 180 |
| `Sha1Example.Steps9` | common/sha1.c:281-315 | The five words after the last of the eighty steps on that message |
| `Sha1Example.Chooses` | common/sha1.c:281-287 | The first function takes the bits of its second operand where those of the first are set, and of its third elsewhere |
| `Sha1Example.Majority` | common/sha1.c:298-305 | The third function is the majority of its operands, bit by bit |
| `Sha1.Bytes4Digits` | common/sha1.c:399-408 | The four bytes of a length word are its digits in base 256, the highest first |
| `ModularPower.PowM64` | libvncclient/rfbclient.c:689-700 | For every modulus above zero the result is congruent to the power, despite 64-bit wrap-around; for a reduced base, and for any base when the modulus is at most 2^63, it is the power's remainder if and only if the modulus is above one or the exponent above zero |
| `ModularPower.MulM64` | libvncclient/rfbclient.c:677-688 | Congruent to the product for every modulus above zero, and reduced when the second factor is or the modulus is at most 2^63 |
| `ModularPower.MulNotReduced` | libvncclient/rfbclient.c:677-688 | For a modulus above 2^63 and a second factor above it the product can stay unreduced |
| `ModularPower.AddCongruent` | libvncclient/rfbclient.c:674-676 | The macro is congruent to the sum even when the sum takes more than 64 bits |
| `ModularPower.AddReduced` | libvncclient/rfbclient.c:674-676 | Reduced operands give a reduced sum, and so does any sum that fits 64 bits |
| `ModularPower.AddReducedExactly` | libvncclient/rfbclient.c:674-676 | For all operands: the result is reduced if and only if the sum fits 64 bits or the two remainders the macro adds stay below the modulus together |
| `ModularPower.AddReducedHalf` | libvncclient/rfbclient.c:674-676 | Up to a modulus of 2^63 one reduced operand and one below twice the modulus are enough |
| `ModularPower.AddNotReduced` | libvncclient/rfbclient.c:674-676 | Operands above the modulus can give a result that is not reduced |
| `ModularPower.NoWrap` | libvncclient/rfbclient.c:674-676 | The two parts of the macro never overflow together |
| `ModularPower.Agree` | libvncclient/rfbclient.c:790-797 | Both sides of the key exchange compute the same key, the generator raised to the product of the secrets |
| `ModularPower.SharedKey` | libvncclient/rfbclient.c:790-791 | Raising to one secret and then to the other, reducing in between, does not depend on the order |
| `ModularPower.SquareHalves` | libvncclient/rfbclient.c:694-698 | One bit of the exponent: the square of the base to half the exponent, times the base when the bit is set |
| `TrlePainting.RectangleDecodes` | libvncclient/trle.c:81-289 | Every well-formed rectangle is decoded to exactly the image its tiles describe; nothing outside it is touched and exactly its bytes are consumed |
| `TrleDecoder.Client.HandleTRLE` | libvncclient/trle.c:53-292 | For every stream of which no tile goes beyond the receiving buffer, well formed or not, the tile loops do what decoding tile by tile says, failure included, and nothing outside the rectangle changes; every well-formed rectangle is such a stream |
| `TrleDecoder.Client.ShowImage` | libvncclient/trle.c:53-292 | The two together: the frame buffer shows the image after a well-formed rectangle |
| `TrleBuffer.StreamContained` | libvncclient/trle.c:58-87 | No tile of a well-formed rectangle goes beyond the receiving buffer |
| `TrleBuffer.TileFits` | libvncclient/trle.c:58-77 | The bytes of any well-formed tile fit a buffer of 512 bytes a byte of pixel |
| `TrleBuffer.FullBuffer` | libvncclient/trle.c:169-189 | A tile of 256 single pixels of one byte fills a buffer of 512 bytes to the end |
| `TrleBuffer.TileEndTaken` | libvncclient/trle.c:92-287 | A decoded tile takes as much of the buffer as of the stream behind its first byte, because the runs of a tile are received one behind the other |
| `TrleBuffer.OnlyRunsOverrun` | libvncclient/trle.c:94-168 | Tiles without runs never go beyond the buffer, whatever the stream |
| `TrleBuffer.RunsOverrun` | libvncclient/trle.c:169-189 | The limit holds for each run length only: a tile of one short and one overlong run is accepted and goes two bytes beyond a buffer of any size |
| `TrleFailures.CutShort` | libvncclient/trle.c:89-287 | Every rectangle the decoder accepts, well formed or not, is refused when its last bytes are missing, however few |
| `TrleFailures.FrameExtends` | libvncclient/trle.c:81-289 | Bytes behind a rectangle change nothing of what it shows and are left |
| `TrleFailures.TileExtends` | libvncclient/trle.c:89-287 | The same for one tile of each kind |
| `TrleFailures.Reserved` | libvncclient/trle.c:122-168 | Subencodings 17 to 126 are refused, and 127 where there is nothing to reuse or too large a palette |
| `TrleFailures.Overlong` | libvncclient/trle.c:190-199 | What a run has more than its tile is dropped |
| `TrleRoundTrip.EnoughBits` | libvncclient/trle.c:137-139 | Indices take one bit for two colors, two bits for up to four and four bits for up to 16 |
| `TrleRoundTrip.TileDecodes` | libvncclient/trle.c:94-287 | Each kind of tile, reused palettes included, decodes from its bytes to its pixels, its effect on the remembered palette, and nothing more read |
| `TrlePainting.TileBetween` | libvncclient/trle.c:81-87 | The tiles of at most 16 by 16 are disjoint and cover the rectangle: a tile is exactly what lies between two positions of the loops |
| `TrlePainting.TilePainted` | libvncclient/trle.c:146-156 | Painting a tile puts each of its pixels where it belongs and changes no other place |
| `TrlePainting.StreamDecodes` | libvncclient/trle.c:81-289 | The same from any position of the loops on |
| `TrleRoundTrip.RowsDecode` | libvncclient/trle.c:142-163 | Packed rows, each starting on a byte, give back their indices for 1, 2 and 4 bits |
| `TrleRoundTrip.PackIndex` | libvncclient/trle.c:151-158 | Each index packed into a byte is found again by its shift and mask |
| `TrleRoundTrip.RunsDecode` | libvncclient/trle.c:169-207 | Plain runs that fill a tile decode to their pixels |
| `TrleRoundTrip.PaletteRunsDecode` | libvncclient/trle.c:209-255 | So do palette runs, with single pixels as one byte |
| `TrleRoundTrip.LengthDecodes` | libvncclient/trle.c:179-189 | A run length of any number of bytes is read back |
| `TrleRoundTrip.PackedDecodes` | libvncclient/trle.c:256-271 | A palette of 2 to 16 colors and its indices |
| `TrleRoundTrip.PackedAgainDecodes` | libvncclient/trle.c:122-168 | The remembered palette with new indices, also after palette runs with at most 16 colors |
| `TrleRoundTrip.PaletteDecodes` | libvncclient/trle.c:272-284 | A palette of 2 to 127 colors and its runs |
| `TrleRoundTrip.PaletteAgainDecodes` | libvncclient/trle.c:208-255 | The remembered palette with new runs |
| `TrleRoundTrip.SolidAgainDecodes` | libvncclient/trle.c:127-130 | The remembered color |
| `TrleDecoder.Client.DecodeOne` | libvncclient/trle.c:89-287 | For every tile that stays in the receiving buffer, one turn of the tile loops agrees with the value-level tile decoder on success, pixels, remembered state and input left; what is painted stays in the tile |
| `TrleDecoder.Client.Case127` | libvncclient/trle.c:122-168 | The reuse of color or palette, with its refusals |
| `TrleDecoder.Client.PackedPixels` | libvncclient/trle.c:136-163 | The loops with shift and mask read the packed rows |
| `TrleDecoder.Client.PackedRow` | libvncclient/trle.c:151-162 | One row |
| `TrleDecoder.Client.PlainRle` | libvncclient/trle.c:169-203 | The loop over plain runs, each received behind the one before; what a run has too much is dropped |
| `TrleDecoder.Client.PaletteRle` | libvncclient/trle.c:209-249 | The loop over palette runs, received behind the palette |
| `TrleDecoder.Client.ReadRunLength` | libvncclient/trle.c:179-189 | The bytes of a run length, read one at a time into the places behind the first, within the limit for one run; the place behind the last is returned |
| `TrleDecoder.Client.PaintRun` | libvncclient/trle.c:190-199 | A run goes on from row to row and ends with the tile |
| `TrleDecoder.Client.ReadColors` | libvncclient/trle.c:263-268 | The new colors replace the first ones of the palette and leave the others |
| `TrleDecoder.Client.Bitmap` | libvncclient/trle.c:95-110 | A raw tile is painted row by row |
| `TrleDecoder.Client.FillRect` | libvncclient/trle.c:111-120 | A solid tile is painted |
| `AudioRing.Perform` | libvncclient/audio.c:63-253 | Any run of callbacks, additions, refused calls of audioInit and starts or ends of streams does to the ring what it does to a bounded queue, within the allocation; what was accepted is what was played followed by what is pending |
| `AudioRing.Audio.AddSamples` | libvncclient/audio.c:194-239 | A prefix of the data offered is queued, as long as there is room, and all loops end; half the data is offered when more than five callbacks are pending |
| `AudioRing.Audio.AddSilentSamples` | libvncclient/audio.c:149-169 | Silence is queued as long as there is room |
| `AudioRing.Audio.OutCallback` | libvncclient/audio.c:63-95 | The oldest pending bytes, at most as many as asked for, go to the front of the output, in order, and leave the queue |
| `AudioRing.Audio.PutPiece` | libvncclient/audio.c:219-232 | One copy at the write head: free, pending and the masked head stay consistent and the bytes are appended |
| `AudioRing.Audio.TakePiece` | libvncclient/audio.c:78-90 | One copy at the read head takes the front of the queue |
| `AudioRing.SoundPut` | libvncclient/audio.c:228-231 | A chunk behind the last byte is appended to the queue; the mask wraps the head because the size is a power of two |
| `AudioRing.SoundTake` | libvncclient/audio.c:86-90 | A chunk at the read head is the front of the queue |
| `AudioRing.Audio.Init` | libvncclient/audio.c:97-147 | A power-of-two buffer and an empty queue; a call while the engine runs is refused, changes the settings and leaves queue and buffer alone |
| `AudioRing.Audio.StartStop` | libvncclient/audio.c:241-253 | An empty queue with 20 ms of silence ahead of a new stream; its size is within the allocation if and only if the present settings fit those the buffer was made for |
| `AudioRing.LeadTime` | libvncclient/audio.c:250-252 | The silence in front of a stream lasts a fiftieth of a second, rounded down to whole samples |
| `AudioRing.Audio.Reset` | libvncclient/audio.c:241-248 | The first half of it: for all settings, the claimed size is covered by the allocation if and only if they fit |
| `AudioRing.ClaimedExactly` | libvncclient/audio.c:111-248 | The size notifyStreamingStartStop claims is at most what audioInit allocated if and only if the square of the present sample size times the rounded frequency is at most four times the old sample size times the old rounded frequency |
| `AudioRing.SameFits` | libvncclient/audio.c:241-248 | Unchanged settings with one or two channels always fit |
| `AudioRing.RefusedThenReset` | libvncclient/audio.c:101-109 | A run that exceeds the allocation: mono bytes, a refused request for 16-bit stereo, the end of the stream |
| `AudioRing.RoundUp` | libvncclient/audio.c:113-116 | The doubling loop finds the smallest power of two that is enough |
| `AudioRing.CeilingMonotone` | libvncclient/audio.c:241-248 | A smaller estimate needs no larger power of two |
| `Keysym.RoundTrip` | bwvnc/keysym2ucs.c:866-921 | Every character below 2^24 comes back from its keysym, for any strictly sorted table |
| `Keysym.KeysymRoundTrip` | bwvnc/keysym2ucs.c:866-921 | A keysym comes back from its character exactly when it is the preferred one: Latin-1, a table entry without an earlier or Latin-1 double, or directly encoded without either |
| `Keysym.Keysym2ucs` | bwvnc/keysym2ucs.c:866-896 | The binary search finds what looking through the table finds |
| `Keysym.Ucs2keysym` | bwvnc/keysym2ucs.c:898-921 | The linear search finds the first entry, then falls back to direct encoding |
| `Keysym.ByteKeysyms` | bwvnc/keysym2ucs.c:866-921 | Of the one-byte keysyms exactly 0x20 to 0x7e and 0xa0 to 0xff are characters, and they are themselves, both ways; 0x1000000 to 0x1ffffff are directly encoded |
| `Keysym.NotInTable` | bwvnc/keysym2ucs.c:866-921 | What becomes of characters and keysyms that are neither Latin-1 nor in the table |

## Left out

- LZO: the other `#if` configurations; the model is the one built on a 64-bit little-endian machine with a dictionary of offsets. The wide copies of the compressor and of the literal runs may write scratch bytes past the output position; the model keeps only the bytes that stay. The pointer wrap-around test in the chunk loop is the test for less than 32 bytes left. Inputs are shorter than 2^63 bytes.
- microui: layout, clipping, input, controls and the id and clip stacks; the text and icon records are one kind of drawing with a size. A container begun twice in a frame is excluded, as are more roots, open containers or bytes than the fixed sizes hold, which stop the program.
- MicroUiFrame.Context.SortRoots: stands for the library's qsort; only that it sorts and permutes is used, and it is modelled as an insertion sort.
- MicroUiPool: `int` overflow of the frame counter after 2^31 frames.
- ZYWRLE: the quantising filter, which is lossy on purpose; the fourth byte of a pixel; pixel formats in which a coefficient does not fit a pixel; level zero, which no caller asks for. Source and destination are the same image, as in libvncclient/zrle.c.
- Des, DesCipher and VncAuth: the tables are a parameter there, any functions with 32-bit results; `DesStandard` has those of the code.
- VncAuth.StorePassword: opening, protecting and closing the file, and the errors of doing so; the file is its eight bytes.
- base64: locales other than C for the whitespace test; texts are C strings, so no null inside.
- SHA-1: SHA1FinalBits, for messages that are not whole bytes; null contexts; messages of 2^61 bytes and more.
- ModularPower.PowM64: for a modulus above 2^63 and a base at or above it only congruence is stated; see `MulNotReduced`.
- TRLE: pixels of 15 and 24 bits, whose loads read neighbouring bytes. GotBitmap and GotFillRect paint their rectangle. Type 128 as a remembered subencoding cannot occur.
- TrleDecoder.Client.HandleTRLE: streams with a tile that goes beyond the receiving buffer, such as that of `RunsOverrun`; what is written there has no meaning in the model.
- AudioRing.Audio.AddSamples: Opus decoding; the data is PCM. The callback and the additions are atomic steps, so the wait for `cbLock` is not modelled.
- AudioRing.Audio.StartStop: the silence at the start of a stream when the settings do not fit the allocation; the ring then claims more than its buffer has, and no call may follow.
- AudioRing.Audio.OutCallback: output beyond the pending bytes is left as the device prepared it.
- Keysym: the contents of the keysym table, combining characters, UTF-8 and upper case.
- Sockets, TLS, SASL, files, logging, the window, H.264, Opus, JPEG and zlib, the security handshake, encoding lists, cursor shapes and message bitsets: foreign libraries, input and output, or only easy members.
