# CustomOS verified

A Dafny model of the parts of CustomOS with the most logic in them: the image decoders of
`stb_image.h` (DEFLATE, JPEG entropy coding, PNG, GIF), the
`printf` formatter, the page tables with the allocator below them, the page allocator with the
processes above it, and the round-robin scheduler.  `dafny verify dfyconfig.toml` checks it all.

Each decoder is proved against a reference written from its standard, which has none of the code's
lookup tables, buffers and fast paths; and the references against encoders, or against statements in
the numbers that the standards print, which share nothing with them:

- **Inflate.** The bit reservoir, the canonical code tables with their nine-bit fast table, the
  growing output and the overlapping copies together decode every stream that a decoder over a bit
  position (RFC 1951) decodes, to the same bytes, stored, fixed and dynamic blocks alike.  For a
  stream that is cut off, such as the single byte 03, whose end code is not all there, whatever is
  returned is the reference decoding of the data continued by zeros, of which it reads at most 7200.
  What an encoder for all three kinds of blocks writes, with a zlib header, comes back.
- **JPEG.** Huffman tables, byte unstuffing, the fused fast-AC table and the 32-bit buffer give
  the coefficients of section F.2 of ITU-T T.81, or fail with it.  Tables in which symbol 255 has a
  code of at most nine bits are accepted and then misread; this is shown, with its exact condition.
  Blocks that are entropy coded as section F.1.2 says come back, times the quantizer.
- **PNG.** Filtering and Adam7 interlacing are undone for every image, depth, filter choice and
  pass, with the in-place expansions and two alternating row buffers as they are; the output is
  described byte by byte from the data.
- **GIF.** The prefix-linked code table spells the reference dictionary; each canvas pixel is
  described by its own index into the data, so order, interlace, clipping and transparency are
  one statement.  Two properties fail and are stated with their exact conditions: a table that stays
  full for long is refused, and the background colour is filled in with red and blue exchanged.
  What an LZW encoder writes is drawn.
- **printf.** A format has a meaning independent of any buffer; `snprintf` truncates that
  meaning, and a spelled directive is read as its parts.  Integer fields are the ISO C fields, with
  the exceptions stated as exact conditions: zeros of a precision are dropped under `-`, sign and
  zeros are lost past the 32 characters of the conversion buffer, digits make way for the prefix of
  `#` when they just fill the width, and a negative `*` precision counts as zero.  The number can be
  read back from every field without `#`.
- **Paging, processes, scheduling.** Statements about all addresses, from the boot tables on: a call
  changes these translations and no others; the two user windows of a process show pages that are
  its own.  All other addresses are the same for every process, and the pages of each are within
  reach of all others there; which addresses reach which page is stated exactly, with the windows of
  the APICs and the aliases that the kernel maps before any process runs.  If the memory map puts the
  heap where it already was (0x270000, as for a memory region that begins at 1 MiB), the next table
  is written over that of gigabyte 8; when this happens is an exact condition too.  No process waits
  for more than one round.

Where the C code relies on things outside it, the model takes them as parameters or
preconditions: input is a byte sequence in memory; the allocator behind `realloc` grants requests
up to a parameter `heap_limit`; 64-bit addresses do not wrap; the kernel's image, with `p3_table` and
`p2_table` in it, begins at 10 MiB, and the heap lies before it or after it in the first gigabyte and
does not run into it; no page table is in a user window when processes start; the I/O APIC is at a
multiple of 2 MiB; the kernel reads a table at the linear address stored in its entry, and so does
the software walk that translations are stated of; arguments of `printf` have the kinds its format
asks for, strings are shorter than 4 GiB, and negating the most negative integer wraps around.
Machine arithmetic that can wrap or truncate inside these bounds is written out.

Loops that differ only by a constant (the three bit depths of PNG sample expansion, the filter
loops of a PNG row) are one loop with a parameter.  Bit flags of `printf` are a record of booleans.

## Model

| member | source | states |
|---|---|---|
| `Reversal.BitReverse16Correct` | src/include/stb_image.h:4115-4122 | the four mask-and-shift stages reverse all sixteen bits |
| `Reversal.BitReverse` | src/include/stb_image.h:4124-4130 | a value of at most sixteen bits comes out with its bits in the opposite order |
| `Canonical.KraftIffEndsFit` | src/include/stb_image.h:4143-4157 | the per-length overflow tests all pass exactly when the Kraft sum is at most one |
| `Canonical.PrefixFree` | src/include/stb_image.h:4146-4157 | no canonical code is a prefix of another |
| `Canonical.LeadsUnique` | src/include/stb_image.h:4146-4157 | at most one code leads any window of bits |
| `Canonical.RangeIsLed` | src/include/stb_image.h:4237-4245 | a window inside the code range of a length is led by a code of that length |
| `ZTables.SlotInRange` | src/include/stb_image.h:4159-4165 | the slot of a used symbol lies below the number of used symbols |
| `ZTables.SlotInjective` | src/include/stb_image.h:4159-4165 | no two used symbols share a slot |
| `ZTables.SlotSurjective` | src/include/stb_image.h:4159-4165 | every slot below the number of used symbols belongs to a symbol |
| `ZTables.CellIffLeads` | src/include/stb_image.h:4166-4172 | the fast cells a symbol fills are exactly the windows its reversed code leads |
| `ZTables.CellUnique` | src/include/stb_image.h:4166-4172 | no two fills of the fast table touch the same cell |
| `ZBuild.ZHuffman.Build` | src/include/stb_image.h:4132-4177 | accepts a list of code lengths exactly when its Kraft sum is at most one, and then all its tables are those of the canonical code |
| `ZBuild.ZHuffman.AssignCodes` | src/include/stb_image.h:4143-4158 | first codes, first slots and left-aligned limits of every length, or refusal of an oversubscribed list |
| `ZBuild.ZHuffman.Enter` | src/include/stb_image.h:4159-4175 | one more symbol in the slot tables and in the fast table, all others kept |
| `ZBuild.ZHuffman.FillFast` | src/include/stb_image.h:4166-4172 | the strided fill sets exactly the cells of the code |
| `ZBuild.PackFast` | src/include/stb_image.h:4163 | length and symbol packed in one entry, which is never zero, the mark of a miss |
| `ZLookup.UnpackFast` | src/include/stb_image.h:4271-4277 | length and symbol come back out of a packed entry |
| `ZLookup.FastLookup` | src/include/stb_image.h:4271-4277 | a nonzero fast entry is the symbol whose codeword starts the stream; a zero one means no codeword of at most nine bits does |
| `ZLookup.SlowLookup` | src/include/stb_image.h:4232-4249 | the search by length finds the codeword that starts the stream, or fails only when there is none; the length cross-check cannot fire |
| `ZConst.LengthCode` | src/include/stb_image.h:4303-4309 | the length tables are the bases and extra bits of section 3.2.5 of RFC 1951 |
| `ZConst.DistCode` | src/include/stb_image.h:4311-4315 | the distance tables likewise |
| `Inflating.ZBuf.Get8` | src/include/stb_image.h:4200-4208 | the next input byte, or zero past the end |
| `Inflating.ZBuf.FillBits` | src/include/stb_image.h:4210-4220 | the reservoir holds more than 24 and at most 32 stream bits; the branch for stray high bits is never taken |
| `Inflating.ZBuf.Receive` | src/include/stb_image.h:4222-4230 | the next n bits of the stream, consumed |
| `Inflating.ZBuf.Refill` | src/include/stb_image.h:4254-4270 | sixteen bits are available, or the padding put in once past the end of the input has been read into |
| `Inflating.ZBuf.HuffmanDecode` | src/include/stb_image.h:4251-4279 | exactly the codeword at the stream position, by fast table or by length; -1 only without one, or past the padding |
| `Inflating.ZBuf.Expand` | src/include/stb_image.h:4281-4301 | doubling ends; on success the written bytes are kept and there is room; failure only when the size limit or the allocator refuses |
| `Inflating.ZBuf.CopyMatch` | src/include/stb_image.h:4356-4362 | both copy loops append the reference copy, overlapping or not |
| `Deflate.CopyIsPeriodic` | src/include/stb_image.h:4356-4362 | that copy is the periodic extension of the last dist bytes |
| `Inflating.ZBuf.NextToken` | src/include/stb_image.h:4321-4350 | one literal, match or end of block, as the reference reads it, or an error when the reference has one |
| `Inflating.ZBuf.NextDistance` | src/include/stb_image.h:4347-4350 | a distance code and its extra bits, as the reference reads them |
| `Inflating.ZBuf.ParseHuffmanBlock` | src/include/stb_image.h:4317-4365 | all tokens of a block: the output and the bits consumed are those of the reference under every limit |
| `Inflating.ZBuf.ReadCodeLengthCode` | src/include/stb_image.h:4377-4385 | the permuted lengths of the code-length code |
| `Inflating.ZBuf.NextRun` | src/include/stb_image.h:4389-4409 | one run of code lengths: literal, repeat of the previous, or zeros |
| `Inflating.ZBuf.ComputeHuffmanCodes` | src/include/stb_image.h:4367-4415 | both tables of a dynamic block are those the reference reads, or both report an error |
| `Inflating.ZBuf.StoredHeader` | src/include/stb_image.h:4417-4435 | at most four bytes are drained from the reservoir into the four-byte header |
| `Inflating.ZBuf.ParseUncompressedBlock` | src/include/stb_image.h:4417-4444 | a stored block appends exactly its bytes, or fails exactly when the reference does |
| `Inflating.ZBuf.ParseZlibHeader` | src/include/stb_image.h:4446-4457 | accepts exactly method 8 without a dictionary and with the right check value, if anything follows the two bytes |
| `Deflate.FixedCodesGood` | src/include/stb_image.h:4460-4475 | the fixed codes satisfy the Kraft inequality, so their tables are always built |
| `Inflating.ZBuf.ParseBlock` | src/include/stb_image.h:4498-4513 | a block of any kind as the reference decodes it; the reserved kind is an error |
| `Inflating.ZBuf.ParseZlib` | src/include/stb_image.h:4489-4516 | success means the reference yields exactly the bytes written from exactly the bits read; an error means the reference fails or the output cannot fit |
| `Inflating.DecodeZlib` | src/include/stb_image.h:4518-4563 | every stream the reference decodes, with room for its output, is decoded to exactly that output, and whatever is returned is the reference decoding of the data continued by at most 7200 zero bits |
| `DeflateEnd.InflateEnd` | src/include/stb_image.h:4489-4516 | however far it may read, the reference ends within 7200 bits of the data: in the zeros after it a block ends at once or never |
| `DeflateStream.StreamDecodes` | src/include/stb_image.h:4489-4516 | the reference decodes every well-formed sequence of stored, fixed and dynamic blocks to its contents |
| `DeflateStream.HeaderRead` | src/include/stb_image.h:4367-4415 | a dynamic header, described by its three counts, the code-length code and a list of runs, is read as the two codes that the runs list |
| `DeflateStream.WellFormedInflates` | src/include/stb_image.h:4489-4516 | so a buffer holding a well-formed stream inflates to the stream contents |
| `DeflateStored.EncodedReads` | src/include/stb_image.h:4489-4516 | the reference reads back the stored-block encoding of any bytes, of whatever length |
| `DeflateStored.RoundTrip` | src/include/stb_image.h:4518-4563 | encoding any bytes in stored blocks and decoding returns them |
| `DeflateEncode.RoundTrip` | src/include/stb_image.h:4489-4563 | any blocks of all three kinds, encoded with the tables and code words that RFC 1951 prints, behind any zlib header of RFC 1950, are decoded to the bytes they stand for |
| `DeflateEncode.StoredRoundTrip` | src/include/stb_image.h:4446-4563 | any bytes in stored blocks behind any such header are returned |
| `DeflateEncode.StreamPlaced` | src/include/stb_image.h:4489-4516 | encoded blocks are a well-formed stream with those contents wherever they stand |
| `DeflateEncode.HeaderPlaced` | src/include/stb_image.h:4367-4415 | an encoded dynamic header is read as its codes, the lengths in the order 16, 17, 18, 0, 8 and so on |
| `DeflateEncode.FixedWordIs` | src/include/stb_image.h:4460-4485 | the fixed code words are those printed in section 3.2.6 |
| `DeflateEncode.LengthFits` | src/include/stb_image.h:4303-4309 | every length from 3 to 258 has a code of the printed table with enough extra bits |
| `DeflateEncode.DistanceFits` | src/include/stb_image.h:4311-4315 | and every distance from 1 to 32768 |
| `DeflateEncode.ItemsMean` | src/include/stb_image.h:4317-4365 | copies repeat the last bytes, over and over if they are longer than their distance |
| `JTables.SizeListSorted` | src/include/stb_image.h:2016-2022 | the list of code sizes is sorted and positive |
| `JTables.SlotIsIndex` | src/include/stb_image.h:2024-2038 | in a sorted list the slot of a symbol is its index, so delta is the same for all codes of a length |
| `JTables.CellsDisjoint` | src/include/stb_image.h:2041-2052 | no two symbols fill the same fast cell |
| `JBuild.JHuffman.Build` | src/include/stb_image.h:2011-2054 | accepts counts exactly when there are at most 256 codes and their Kraft sum is at most one, and then all tables are those of the canonical code |
| `JTables.CodesInOrder` | src/include/stb_image.h:2024-2039 | codes are assigned as in Figure C.2: each is the one before plus one, shifted where the length grows |
| `JBuild.JHuffman.AssignLength` | src/include/stb_image.h:2027-2037 | codes, delta and preshifted maxcode of one length |
| `JLookup.Lookup` | src/include/stb_image.h:2112-2147 | the right symbol and length whenever the leading symbol is not the colliding one; on a collision ten bits and the symbol that their search gives |
| `JLookup.UsableIff` | src/include/stb_image.h:2041-2052 | some window collides if and only if symbol 255 exists and has a code of at most nine bits |
| `JCollision.AcceptedTableCollides` | src/include/stb_image.h:2041-2052 | 255 codes of eight bits and one of nine, the size list of concrete counts, meet every acceptance condition, and symbol 255 collides with the miss mark |
| `JReading.JReader.NextByte` | src/include/stb_image.h:2086-2096 | stuffed zero bytes and fill bytes are dropped, and a marker ends the data |
| `JReading.JReader.Grow` | src/include/stb_image.h:2083-2099 | the buffer keeps holding the next stream bits, now more than 24 of them or all that the scan has left |
| `JReading.JReader.HuffDecode` | src/include/stb_image.h:2105-2154 | without a collision the value of the codeword at the stream position, consumed, and -1 only if there is none or too few bits are left; on a collision ten bits and the value of the symbol misread, or -1 |
| `JReading.JReader.ExtendReceive` | src/include/stb_image.h:2161-2174 | the received magnitude, extended as section F.2.2.1 of ITU-T T.81 says |
| `JReading.RotateLeft` | src/include/stb_image.h:2164-2171 | the rotation by shifts and or splits the word at its top n bits |
| `JReading.SignOfMagnitude` | src/include/stb_image.h:2164-2173 | the sign taken from the top bit and the bias give EXTEND |
| `JBlocks.BuildFastAc` | src/include/stb_image.h:2058-2081 | every nonzero entry is the fusion of the symbol leading its cell with the magnitude bits after it |
| `JBlocks.FusedAgrees` | src/include/stb_image.h:2058-2081 | a nonzero entry gives the same run, coefficient and bits as decoding and then extending |
| `JBlocks.UnpackFused` | src/include/stb_image.h:2244-2256 | run, length and signed coefficient are the quotients and remainders of a fused entry |
| `JBlocks.NextAc` | src/include/stb_image.h:2240-2262 | within the scan, unless its symbol collides, the next AC item by either path is the reference item, failure included, from the same bits |
| `JBlocks.DecodeAc` | src/include/stb_image.h:2237-2269 | within the scan, unless a symbol collides, the AC loop fails exactly when the reference does, and otherwise gives its coefficients and position |
| `JBlocks.AddIntsExact` | src/include/stb_image.h:1078-1083 | the overflow test for sums is exact |
| `JBlocks.Mul2ShortsExact` | src/include/stb_image.h:1086-1092 | the product test answers whether the product fits a short exactly when the second factor is not negative or the first is one of the listed values |
| `JBlocks.DecodeDc` | src/include/stb_image.h:2223-2234 | within the scan, unless its symbol collides, it fails exactly when the reference does, and otherwise gives the prediction plus the extended difference |
| `JBlocks.DecodeBlock` | src/include/stb_image.h:2218-2271 | a whole baseline block without collisions: failure exactly when the reference fails within the scan, otherwise exactly its coefficients from exactly its bits |
| `JBlocks.UsableIsClear` | src/include/stb_image.h:2218-2271 | with two tables whose symbol 255, if any, is longer than nine bits no block has a collision, DC symbol included |
| `JScan.RoundTrip` | src/include/stb_image.h:2957-2986 | any blocks, coded as section F.1.2 of ITU-T T.81 says with any usable tables, filled up, stuffed and followed by any marker, are decoded to their coefficients times the quantizer |
| `JScan.DecodeScan` | src/include/stb_image.h:2957-2986 | the blocks of a component are those of the reference, each predicted by the one before |
| `JScan.BlockDecoded` | src/include/stb_image.h:2218-2271 | one coded block, anywhere in the data, is read from exactly its bits |
| `JEncode.AcDecoded` | src/include/stb_image.h:2239-2269 | runs of zeros, F0 for sixteen of them, 00 for the rest of the block, and magnitudes are read back |
| `JEncode.EntropyStuffed` | src/include/stb_image.h:2086-2096 | stuffed bytes are unstuffed up to the marker |
| `JEncode.FigureIs` | src/include/stb_image.h:2200-2216 | the zigzag order is the one printed in Figure A.6 |
| `Zigzag.TableFollowsWalk` | src/include/stb_image.h:2200-2216 | the zigzag table is the walk over the diagonals of the block, and its padding the last place |
| `Zigzag.PlacesArePermuted` | src/include/stb_image.h:2200-2216 | every place of the block is that of exactly one of the 64 coefficients |
| `PngFilter.PaethAgrees` | src/include/stb_image.h:4665-4676 | the rewritten predictor equals the one of section 9.4 of the PNG specification for all integers |
| `PngFilter.BranchAgrees` | src/include/stb_image.h:4656-4663 | every branch predicts as the specification does, and on the first row the substituted filter predicts as the specification does against a row of zeros |
| `PngFilter.ReconFilter` | src/include/stb_image.h:4762-4793 | reconstruction undoes filtering, for every row, filter and previous row |
| `PngFilter.UnfilterRow` | src/include/stb_image.h:4745-4793 | the row is reconstructed in its half of the buffer and the previous row is kept in the other |
| `PngImage.ReconEncoded` | src/include/stb_image.h:4745-4795 | rows filtered with any choice of filters are read back, whatever data follows |
| `PngExpand.UnpackBits` | src/include/stb_image.h:4798-4825 | samples of one, two or four bits are the bits of the scanline, most significant first, scaled for gray |
| `PngExpand.AlphaExpand8` | src/include/stb_image.h:4683-4702 | an opaque channel is inserted after each pixel, also when source and destination are the same place |
| `PngExpand.Swap16` | src/include/stb_image.h:4836-4842 | 16-bit samples are stored in the byte order of the machine |
| `PngExpand.SamplesAreSwapped` | src/include/stb_image.h:4836-4842 | those bytes are the samples of the scanline |
| `PngExpand.AlphaExpand16` | src/include/stb_image.h:4843-4859 | 16-bit pixels with an opaque sample after each |
| `PngExpand.ExpandRow` | src/include/stb_image.h:4797-4860 | a scanline of any depth becomes its row of the output, earlier rows kept |
| `PngDecode.Mul2SizesExact` | src/include/stb_image.h:1022-1028 | the check by division holds exactly when the product fits an int |
| `PngDecode.Mad3SizesExact` | src/include/stb_image.h:1039-1043 | likewise for three factors and a term |
| `PngDecode.CreateImageRaw` | src/include/stb_image.h:4704-4867 | succeeds exactly when the sizes fit and every scanline is there with a filter type from 0 to 4; and then, channel by channel, the output is what these filter types say of the data |
| `PngPixels.ImageDecoded` | src/include/stb_image.h:4704-4867 | the reference written out in the numbers of the specification: filter types, bit positions, gray levels, byte order, alpha |
| `PngPixels.RowsUndone` | src/include/stb_image.h:4745-4793 | filter types 0 to 4 add nothing, the left byte, the upper byte, their mean, or the nearest of three, modulo 256 |
| `PngPixels.SubIsSum` | src/include/stb_image.h:4767-4771 | under type 1 a byte is the sum of all data bytes at its place in the pixels up to it |
| `PngPixels.SampleIs` | src/include/stb_image.h:4798-4825 | where a sample of each bit depth lies in the bytes of its scanline |
| `PngPixels.RowOutShown` | src/include/stb_image.h:4795-4864 | every channel of every pixel of an output row |
| `PngPixels.WhiteIsWhite` | src/include/stb_image.h:4798-4799 | the largest gray sample of every depth becomes 255 |
| `PngDecode.DecodeRow` | src/include/stb_image.h:4745-4861 | one turn of the row loop: the alternating halves, the position and the output keep in step with the reference |
| `PngAdam7.SizeCounts` | src/include/stb_image.h:4882-4889 | the pass size, computed with unsigned wrap-around, counts the lattice points exactly |
| `PngAdam7.PassCovers` | src/include/stb_image.h:4882-4902 | every pixel of the image is a pixel of its pass |
| `PngAdam7.PassUnique` | src/include/stb_image.h:4882-4902 | a pixel of a pass belongs to no other pass |
| `PngAdam7.PassInjective` | src/include/stb_image.h:4882-4902 | no two pixels of the passes share a place, so each output pixel is written once |
| `PngAdam7.AreasAdd` | src/include/stb_image.h:4882-4889 | the seven pass areas add up to width times height |
| `PngInterlace.OffsetApart` | src/include/stb_image.h:4896-4903 | different pixels do not overlap in the flat image |
| `PngInterlace.CopyPass` | src/include/stb_image.h:4896-4903 | every pixel of a pass is copied to its place and all earlier ones stay at theirs |
| `PngInterlace.DecodePass` | src/include/stb_image.h:4881-4907 | an empty pass takes no data; another is decoded from its data and copied |
| `PngInterlace.CreateImage` | src/include/stb_image.h:4869-4912 | plain and interlaced images: success exactly when the data holds all rows or passes, and then every pixel, written out in numbers, is at its place |
| `PngInterlace.ImageInterlaced` | src/include/stb_image.h:4881-4907 | the seven passes have the columns, rows and steps that the specification prints |
| `PngRoundTrip.PassesDecode` | src/include/stb_image.h:4881-4907 | seven encoded passes are read back in order, whatever data follows |
| `PngRoundTrip.DecodePlain` | src/include/stb_image.h:4704-4867 | filtering an image with any filters and decoding returns the image |
| `PngRoundTrip.DecodeInterlaced` | src/include/stb_image.h:4869-4912 | encoding an image in seven passes under any filters and decoding returns every pixel of the image |
| `GifRaster.NextRow` | src/include/stb_image.h:6687-6695 | the cursor goes to the row next in the order of Appendix E of GIF89a, skipping passes without rows, or leaves the frame after the last |
| `GifRaster.RankInRange` | src/include/stb_image.h:6687-6695 | the positions of the rows in that order are the numbers below the height |
| `GifRaster.RankInjective` | src/include/stb_image.h:6687-6695 | no two rows have the same position |
| `GifCanvas.IndexInside` | src/include/stb_image.h:6672-6696 | every position of the frame is reached within the first width times height pixels |
| `GifCanvas.IndexInjective` | src/include/stb_image.h:6672-6696 | no two pixels of the data share a position |
| `GifDraw.Raster.Begin` | src/include/stb_image.h:6862-6888 | accepts exactly the frames that lie inside the canvas, with the cursor at the first pixel or, for zero width, below the frame |
| `GifDraw.Raster.Plot` | src/include/stb_image.h:6672-6696 | one pixel: drawn where its index says if opaque, marked in the history, clipped once the frame is full; every write lies in the canvas |
| `GifDraw.Raster.NextLine` | src/include/stb_image.h:6687-6695 | at the end of a row the cursor is at the row next in rank, or the frame is full |
| `GifLzw.StrSame` | src/include/stb_image.h:6662-6670 | the string of an entry depends only on entries up to it, so the recursion ends |
| `GifLzw.AddEntry` | src/include/stb_image.h:6757-6765 | an added entry has an earlier prefix, spells the previous string and one more byte, and changes no other string |
| `GifLzw.LearnSpells` | src/include/stb_image.h:6757-6765 | the table with the new entry spells the dictionary of the reference, also for the code about to be defined |
| `GifDecode.Decoder.OutCode` | src/include/stb_image.h:6662-6671 | the recursion over prefixes draws exactly the string of the code |
| `GifDecode.Decoder.FillByte` | src/include/stb_image.h:6727-6735 | the next byte across sub-blocks, or the end of the data |
| `GifDecode.Decoder.TakeCode` | src/include/stb_image.h:6737-6739 | the next code, least significant bit first |
| `GifDecode.Decoder.ClearCodes` | src/include/stb_image.h:6741-6746 | a clear code restores the initial table and code size |
| `GifDecode.Decoder.AddCode` | src/include/stb_image.h:6757-6765 | the entry of the previous and the present code, unless the table is full |
| `GifDecode.Decoder.Grow` | src/include/stb_image.h:6771-6774 | codes grow exactly when the table reaches the next power of two below 4096 |
| `GifDecode.Decoder.StringCode` | src/include/stb_image.h:6752-6779 | for minimum code sizes 2 to 11, an error exactly when the reference has one or 8192 codes have followed a clear code, and otherwise the same state and the same pixels |
| `GifDecode.Decoder.SkipBlocks` | src/include/stb_image.h:6747-6751 | after the end code the stream is past the sub-blocks that are left |
| `GifDecode.Decoder.ProcessRaster` | src/include/stb_image.h:6699-6782 | for minimum code sizes 2 to 11, success exactly on the data that the reference LZW decodes and in which no stretch between clear codes is too long for the table, with exactly the reference pixels drawn |
| `GifDecode.DrawFrame` | src/include/stb_image.h:6786-6911 | for minimum code sizes 2 to 11, every canvas pixel of a first frame is what the reference pixels, the interlace order, clipping and transparency say, and the background colour where no data reaches |
| `GifEncode.RoundTrip` | src/include/stb_image.h:6699-6911 | any pixels, encoded as Appendix F of GIF89a says with clear codes anywhere, are drawn: every byte of the canvas, by its position |
| `GifEncode.StreamRuns` | src/include/stb_image.h:6715-6782 | all codes are read back, the decoder one string behind the encoder |
| `GifEncode.CodeRead` | src/include/stb_image.h:6752-6779 | each code is read as its string, also the one that enters the table with it, and the table learns what the encoder entered |
| `GifEncode.BlocksRead` | src/include/stb_image.h:6727-6735 | sub-blocks of up to 255 bytes are joined |
| `GifEncode.CanvasHolds` | src/include/stb_image.h:6786-6911 | what a first frame is, in numbers |
| `GifDeferred.DeferredClear` | src/include/stb_image.h:6757-6761 | a family of images that the format allows and the reference decodes; the long ones exceed the table of the code, which refuses them |
| `GifDraw.Raster.FillBackground` | src/include/stb_image.h:6901-6911 | every pixel not marked in the history becomes the opaque background entry of the palette, unless that is entry 0; the others stay |
| `GifCanvas.FilledShows` | src/include/stb_image.h:6901-6911 | after the fill every pixel of the canvas is either drawn or background |
| `GifCanvas.BackgroundOrder` | src/include/stb_image.h:6901-6911 | the fill copies palette bytes in their order, drawing swaps them: the background shows as its own colour if and only if its first and third byte agree |
| `GifCanvas.RedIsBlue` | src/include/stb_image.h:6901-6911 | the concrete case: a red background is filled blue |
| `Printf.Printer.Put` | src/printf/printf.c:133-138 | a character past the capacity is counted and not stored |
| `Printf.StrnLen` | src/printf/printf.c:171-177 | the shorter of the length and the limit |
| `Printf.Atoi` | src/printf/printf.c:188-195 | the number denoted by the whole run of digits, modulo 2^32 |
| `Printf.Printer.OutRev` | src/printf/printf.c:199-223 | the reversed field, turned round, with blanks on the asked side |
| `Printf.ZeroPad` | src/printf/printf.c:233-238 | zeros up to a length, never past the 32 characters of the buffer |
| `Printf.Printer.NtoaFormat` | src/printf/printf.c:227-277 | padding, alternative form and sign, as the field specification says |
| `Printf.PutDigits` | src/printf/printf.c:291-298 | the digits of a number, least significant first, at most 32 |
| `Printf.Printer.NtoaLong` | src/printf/printf.c:281-301 | the specified integer field, for every value, base, width, precision and flags |
| `PrintfSpec.Buffered` | src/printf/printf.c:227-301 | on every input the conversion buffer holds at most 32 characters |
| `Printf.Printer.PrintString` | src/printf/printf.c:796-820 | a string cut at its precision, in its field |
| `Printf.Printer.PrintChar` | src/printf/printf.c:776-794 | a character in its field |
| `PrintfDirective.NumberRead` | src/printf/printf.c:188-195 | a run of digits is read as the number it denotes, modulo 2^32, up to its last digit |
| `PrintfDirective.SpelledIsRead` | src/printf/printf.c:601-680 | flags, width, precision and length, spelled out before a conversion, are read as what they were spelled from, anywhere in a format |
| `PrintfDirective.SpelledPrints` | src/printf/printf.c:577-850 | a format of one spelled integer directive prints the conversion of its parts, and that is the ISO field, or the ISO alternative form, exactly under their conditions |
| `PrintfNumerals.UnsignedPrints` | src/printf/printf.c:684-755 | every spelled `x`, `X`, `o`, `u` and `b` directive prints the ISO field of its argument in base 16, 16, 8, 10 and 2, modulo 2^8, 2^16, 2^32 or 2^64, exactly under the conditions for the field |
| `PrintfNumerals.SignedPrints` | src/printf/printf.c:684-755 | every spelled `d` and `i` directive likewise, for the signed value in base 10 |
| `PrintfNumerals.HashedPrints` | src/printf/printf.c:684-755 | and every `x`, `X` and `o` directive with `#` |
| `PrintfNumerals.UnsignedDenotes` | src/printf/printf.c:684-755 | whatever is printed for an unsigned directive without `#` is blanks and digits that denote the argument in that base |
| `PrintfNumerals.SignedDenotes` | src/printf/printf.c:684-755 | and for a signed one a sign before them, unless 32 digits leave no room |
| `PrintfNumerals.PlainConversions` | src/printf/printf.c:684-755 | `%x`, `%X`, `%o`, `%u` and `%d` print just the digits, and a minus sign |
| `PrintfNumerals.DigitChars` | src/printf/printf.c:281-300 | the sixteen digits in both cases |
| `PrintfNumerals.StringPrints` | src/printf/printf.c:796-820 | a string is cut to its precision and placed in its width |
| `PrintfNumerals.CharPrints` | src/printf/printf.c:776-794 | a character modulo 256 is placed in its width |
| `PrintfNumerals.PointerPrints` | src/printf/printf.c:822-838 | a pointer is sixteen upper-case hexadecimal digits |
| `PrintfNumerals.PercentPrints` | src/printf/printf.c:840-843 | two percent signs print one |
| `PrintfNumerals.StarWidth` | src/printf/printf.c:614-628 | a width given by an argument, and a negative one as the flag `-` |
| `PrintfNumerals.FormatPrints` | src/printf/printf.c:587-850 | a format prints what its parts print, each by itself, one after another |
| `PrintfSpec.DirectiveForward` | src/printf/printf.c:601-680 | a directive ends ahead of where it starts, so the format loop ends |
| `Printf.Printer.PrintDirective` | src/printf/printf.c:682-849 | each conversion prints its specified piece and takes its arguments |
| `Printf.Printer.PrintAll` | src/printf/printf.c:577-850 | the characters sent out are exactly the meaning of the format |
| `Printf.Snprintf` | src/printf/printf.c:852-890 | the result is the length of the whole output whatever the capacity, and the buffer holds as much of it as fits, a NUL, and beyond that what it held; capacity zero writes nothing |
| `PrintfIso.DigitsNumber` | src/printf/printf.c:291-298 | the digits of a number denote it |
| `PrintfIso.BufferHolds` | src/printf/printf.c:227-301 | the reversed buffer is sign, zeros and digits as far as 32 characters allow, for every value, base, width and precision |
| `PrintfIso.FieldReadsBack` | src/printf/printf.c:227-301 | every printed field is blanks, a sign unless 32 digits leave no room for it, and digits that denote the argument; as wide as asked or as needed |
| `PrintfIso.ConversionReadsBack` | src/printf/printf.c:683-755 | the same for whole d, i, u, x, X and o conversions of every argument type |
| `PrintfIso.ReadBack` | src/printf/printf.c:227-301 | the ISO field, with which the printed one is compared, is blanks, sign and digits that denote the argument |
| `PrintfIso.FieldIsIso` | src/printf/printf.c:227-277 | for every width and precision, the printed field is the ISO field if and only if it fits the 32 characters of the buffer and left justification does not meet a precision larger than the number of digits |
| `PrintfIso.DroppedZeros` | src/printf/printf.c:230-239 | the concrete case: %-5.3d of 7 is printed without its zeros |
| `PrintfIso.DroppedSign` | src/printf/printf.c:230-274 | the concrete case: %.32d and %033d of -5 are printed without the minus sign |
| `PrintfHash.HashField` | src/printf/printf.c:227-277 | the whole field under #: the prefix before zeros and digits, as far as 32 characters allow, in place of leading characters where they fill width or precision |
| `PrintfHash.HashedFieldIsIso` | src/printf/printf.c:227-277 | for every number, width and precision, the alternative form of hexadecimal and octal is that of ISO C if and only if it fits the buffer, the digits do not just fill the width, and no precision is dropped or counted twice |
| `PrintfHash.HashConversionIsIso` | src/printf/printf.c:683-755 | the same for whole x, X and o conversions of every argument type |
| `PrintfHash.LostDigits` | src/printf/printf.c:241-261 | the concrete case: %#4x of 0x1234 is printed as 0x34 |
| `PrintfHash.LostZero` | src/printf/printf.c:281-289 | the concrete case: %#.0o of 0 is printed without its zero |
| `PrintfIso.ConversionIsIso` | src/printf/printf.c:683-755 | the same for whole d, i, u, x, X and o conversions of every argument type |
| `PrintfIso.StarPrecision` | src/printf/printf.c:633-643 | a precision given as an argument is read as ISO C asks if and only if it is not negative |
| `PrintfIso.LostString` | src/printf/printf.c:633-643 | the concrete case: a string printed with precision -1 is lost |
| `PageBits.PageEntryIs` | src/paging/paging.c:12-30 | a page entry with small flags gives its aligned address and its flags back and is present |
| `PageBits.EntryBits` | src/paging/paging.c:28-53 | bit by bit, an entry is its address, its flags, and bits 0, 1, 2 and 7; that of a table its address and bits 0, 1 and 2 |
| `PageBits.MasksCut` | src/paging/paging.c:11-12 | the macros cut off the low 8 and the low 21 bits |
| `PageBits.TableEntryIs` | src/paging/paging.c:11-28 | a table entry gives its table back and is present |
| `PageBits.EntriesAreForUser` | src/paging/paging.c:28-30 | every entry written is accessible to user mode |
| `Paging.Pager.constructor` | src/paging/paging.asm:95-120 | the boot tables, in the image before or after the heap, map the first gigabyte to itself and nothing else |
| `PageBits.PagePlusOffset` | src/paging/paging.c:125-126 | or-ing an offset into a page address adds it |
| `Paging.AlignUp` | src/stdlib/stdlib.c:72-74 | the rounding gives the first multiple of the alignment not below the start |
| `Paging.Pager.Malloc` | src/stdlib/stdlib.c:55-60 | a block after all earlier ones |
| `Paging.Pager.MallocA` | src/stdlib/stdlib.c:72-78 | an aligned block, disjoint from all earlier ones |
| `Paging.Pager.ChooseHeap` | src/stdlib/stdlib.c:13-43 | the heap goes on wherever the memory map says; lost are exactly the tables that tables put there can fall on |
| `Paging.Pager.MemoryPhysical` | src/paging/paging.c:110-127 | the software walk gives the translation, or null where there is none |
| `Paging.Pager.AllocatePage` | src/paging/paging.c:21-32 | a mapped gigabyte is left alone; otherwise all 512 entries, bit by bit, map the gigabyte to consecutive pages with these flags, and no other translation changes, those through lost tables excepted |
| `Paging.Pager.MemoryRemap` | src/paging/paging.c:47-55 | exactly one word is written, bit by bit the address with these flags; exactly its 2 MiB window is mapped anew, and no other translation changes, those through lost tables excepted |
| `Kernel.Boot` | src/kernel.c:119-255 | the whole start leaves an empty allocator and, for all addresses, exactly the translations listed, windows of the APICs included, except in gigabyte 8 if the heap was put over its table |
| `Kernel.KernelMapHolds` | src/kernel.c:119-255 | where every address leads after the start and with which flags, in numbers |
| `Kernel.UncachedExactly` | src/drivers/apic/apic.c:47-103 | the bit that keeps the caches out is set in the windows of the APICs and nowhere else, and the page-size bit everywhere |
| `Kernel.GraphicsMap` | src/kernel.c:61-76 | each gigabyte is mapped where its first request put it |
| `Kernel.ApicInit` | src/drivers/apic/apic.c:47-103 | two different windows of the heap show the local and the I/O APIC, and all else stays; none without an ACPI table |
| `Kernel.AliasMap` | src/kernel.c:251-255 | five gigabytes lead into the second, unless one holds the framebuffer; their tables lie in the window of the heap |
| `Kernel.BootPager` | src/kernel.c:119-255 | all mappings in their order, and where every table is |
| `Kernel.BootInformationLost` | src/kernel.c:119-138 | when the next table falls on that of gigabyte 8, gigabyte 8 shows the gigabyte of that table |
| `Kernel.BootInformationKept` | src/kernel.c:119-138 | for a heap that begins above 0x26f000, gigabyte 8 shows the boot information if and only if it begins above 0x270000 |
| `Kernel.CommonMachine` | linker.ld:5 | all this applies to the kernel as it is linked, at 10 MiB, with a heap at 0x270000 whose users leave the image alone |
| `Kernel.ProcessorAgrees` | src/paging/paging.c:110-127 | the processor, which takes the address of a table as physical, finds the translation of the software walk wherever that address is mapped to itself |
| `Frames.Allocator.constructor` | src/paging/paging.c:59-62 | all slots free |
| `Frames.Allocator.PageAllocate` | src/paging/paging.c:86-101 | the page of the first free slot, which was not live, at 1 GiB and 2 MiB for each slot before; or null exactly when every slot is taken; live and free slots always add up to 512 |
| `Frames.Allocator.FindRun` | src/paging/paging.c:64-74 | the first slot from which no slot of the run, as far as it is in the table, is taken |
| `Frames.Allocator.PageAllocateN` | src/paging/paging.c:63-85 | one page, or the first run that fits, likewise: none of the pages was live |
| `Frames.Allocator.PageDealloc` | src/paging/paging.c:102-108 | any page of the allocator: its slot is free afterwards and no other changes, also at the start of a longer run, whose other slots stay taken |
| `Processes.SetUpPages` | src/schedule/Process.c:45-54 | program and stack pages that belong to no other process, the first two that are free, complete exactly when there are two |
| `Processes.Serve` | src/paging/paging.c:86-108 | isolation of the processes survives any run of pages taken and given back by others |
| `Processes.Remap` | src/schedule/Process.c:30-43 | with all page tables outside the user windows, these show this process and nothing else has moved |
| `Processes.InPlaceInNumbers` | src/schedule/Process.c:30-43 | 4 MiB to 6 MiB show the program page, 8 MiB to 10 MiB the stack page, all else is as the kernel left it |
| `Processes.UserMemoryApart` | src/schedule/Process.c:30-54 | inside the two user windows, processes with allocated pages have no physical address in common |
| `Processes.ReachesExactly` | src/schedule/Process.c:30-54 | for every linear address and every page of every process: which reach it while another process is in place, exactly, by the software walk |
| `Processes.ProcessorReaches` | src/schedule/Process.c:30-54 | the processor translates every address alike, outside the five alias gigabytes |
| `Processes.PagesAreShared` | src/schedule/Process.c:30-54 | the pages of one process are within reach of every other, at their own addresses |
| `Processes.FirstPushIsShared` | src/schedule/Process.c:56-59 | the first push of every process goes to one and the same word below the stack window |
| `Processes.StartProcesses` | src/schedule/Process.c:30-54 | from the boot tables on, any number of processes get pages of their own, process i at 1 GiB and 4 MiB for each before, and any of them is put in place, in the full layout of the kernel |
| `Scheduling.MakeProcesses` | src/schedule/Scheduler.c:13-20 | processes made one after another are ready and numbered in order, in 32-bit arithmetic |
| `Scheduling.NumbersDistinct` | src/schedule/Scheduler.c:13-20 | two of them have the same number only if a multiple of 2^32 lies between them |
| `Scheduling.SubmitAndRun` | src/schedule/Scheduler.c:59-74 | after a submission, wherever the counter stands, a round of ticks runs the new process and every other exactly once |
| `Scheduling.Scheduler.TrySchedule` | src/schedule/Scheduler.c:48-58 | an index in range whenever there is a process, and the 32-bit advance of the counter |
| `Scheduling.TicksGoRound` | src/schedule/Scheduler.c:48-58 | from any counter value the index goes round modulo the number of processes |
| `Scheduling.RoundRobin` | src/schedule/Scheduler.c:48-58 | any n consecutive ticks over n processes run each exactly once, at its one tick, from every state |
| `Scheduling.RunTicks` | src/schedule/Scheduler.c:59-69 | a run of interrupts dispatches those indices |

## Left out

- JPEG beyond entropy decoding of baseline blocks (progressive scans, IDCT, upsampling, colour conversion), and all SIMD code: numeric or compiled out.
- HDR, BMP, PSD, PIC, PNM and TGA readers, and callback input of `stb_image.h`: compiled out, or easier repeats of the shapes above.
- PNG chunk parsing, palettes, colour-key transparency and CRC; GIF headers, disposal of earlier frames and colour-table parsing.
- Inflating.DecodeZlib: says of a stream that the reference does not decode whole only that whatever is returned is the reference decoding of the data continued by zeros, because the decoder deliberately tolerates missing bits at the end.
- Restart intervals, and scans of several components: JScan is the loop over the blocks of one component without them.
- JScan.DecodeScan: says nothing about scans that end before their blocks do, nor about tables with a symbol that collides.
- JBlocks.DecodeBlock: says nothing about blocks in which a symbol collides, nor about blocks that the scan does not hold whole, where the code reads zeros instead.
- GifDecode.Decoder.ProcessRaster: for minimum code sizes 0, 1 and 12, which the format does not allow, it states only that some pixels are drawn inside the frame.
- GifDecode.Decoder.StringCode: compares with the reference for minimum code sizes 2 to 11 only, as ProcessRaster does.
- GifDecode.DrawFrame: describes the picture for minimum code sizes 2 to 11 only, as ProcessRaster does.
- Printf.Snprintf: asks for a format without floating-point conversions, whose output is not described.
- Printf.Printer.PrintAll: likewise.
- Floating-point conversions of `printf`: numeric.  The conversion `b`, which ISO C does not have, is modelled without a reference for its alternative form.
- The other output functions of `printf.c` and the copy in `src/SerialPrintf`: the same formatter with another sink.
- Frames.Allocator.PageAllocateN: asks that a run of more than one page fits somewhere in the table, because the search accepts a run cut off at slot 512.
- Kernel.Boot: does not describe gigabyte 8 when the heap is chosen at 0x26f000 or below; the mapping that the unused user-mode test makes is left out.
- Processes.ProcessorReaches: says nothing of the five alias gigabytes, whose tables the kernel allocates after moving its heap to the addresses of gigabyte 7, so that the processor looks for them at other physical addresses.
- Processes.StartProcesses: asks that the heap does not run into the kernel's image and that no page table lies in a user window, which the kernel does not check; what happens otherwise is not described.
- mallocAB and callocAB, realloc, and how the memory map is searched for the heap: not claimed.
- TLB invalidation, port I/O, interrupt and descriptor tables, drivers, file systems, ELF loading, terminal and graphics: hardware or interface code.
- ProcessKillCurrent and ProcessDup: `utils/utils.h` and the list header they use are not part of this model; counted loops are taken to run from 0.
- Process.c and Scheduler.c fields that only carry data (registers, descriptors, blocking state).
