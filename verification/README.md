# Verified models of the samples and of MiniGUI's bitmap codec and compositor manager

This project models five pieces of the repository in Dafny and proves what they are for.

* **Windows BMP codec over a memory stream** (`book-list/minigui/winbmp.c`, `book-list/minigui/rwops.c`). The stream is a byte buffer with a cursor (`MemStream`, read through `Reader`). Two run-length decoders (`Rle8`, `Rle4`), the header, palette and 16-bit readers (`BmpLoad`) and the saver (`BmpSave`) are methods over that stream and over arrays. Each is proved against a function of the stream's contents. `BmpRoundTrip`, `Rle8Image` and `Rle4Image` prove what those functions are for: what is saved is what is loaded, and decoding inverts serialisation. `BmpFiles` goes from the octets of a whole file, of every compression, to the pixels it loads to. `BmpResave` says when what was loaded can be saved again.
* **Compositor manager** (`book-list/minigui/compsor-manager.c`). `Compositor` has the registry of eight slots and the selection of the current compositor, `CompositorRuns` what holds after any run of registrations, unregistrations and selections. `DirtySurface` is one node and its dirty surface as a state machine whose server steps interleave with drawing clients, `CompositePass` a whole pass under any interleaving, `PassOrder` the order of its steps, `LostRectangles` when passes can lose a rectangle, and `CompositeServer` the server's methods, with clients acting between any two of their steps.
* **Prime factorisation and the sieve** (`source/samples/prime_factors.c`, `source/samples/primes.cpp`): `Primes`, `PrimeFactors`, `Sieve`, and `WrappedProducts` for the products of the sieve that leave 32 bits.
* **Balanced split** (`source/samples/split_array-tuned.c`): `SplitArray`.
* **FNV-1a, perfect-hash search, character replacement** (`source/samples/str2key.c`, `source/samples/replace_char.c`): `Fnv`, `PerfectHash`, `ReplaceChar`.

`Bytes` holds the arithmetic of words and octets, `Rle` what the two decoders share, `BmpFormat` the layout of a file. `dafny verify dfyconfig.toml` checks everything.

## What is assumed

* `fp_getc`, `fp_igetw`, `fp_igetl` and `__mg_bmp_compute_pitch` are not part of this model. They are taken as little-endian reads built on `MGUI_RWgetc` (end of file becomes 255 in an octet and 65535 in the `unsigned short` of the RLE4 decoder) and as `((w * depth + 31) / 32) * 4`.
* Sizes and products in the stream are ideal integers, and a buffer never wraps the address space. `unsigned long` is 64 bits wide where the header readers store it in an `int`.
* Memory that the codec writes is there: a decoder may write as many cells as it decodes (`BmpLoad.RowsAlwaysFit` says how much is always enough), and the palette holds the entries that the headers ask for. Nothing in the C code checks any of this. The octets that the saver's wide pixel reads meet behind the bitmap are arbitrary, like the reserved octets of its palette.
* The saver ignores the results of its writes. The model does too: what a short stream holds afterwards is stated write by write.
* `qsort` is a method that permutes the array, and sorts it when the comparator orders its elements.
* `double` sums are exact reals.
* A table of operations stands for its pointer: equal values are the same table. Callbacks of compositors appear as entries of a log, do not change the z-order or visibility, and do not re-enter the manager. Between selections nodes may be shown and hidden, appear without private data, and go away once they have none.
* Whether a layer's dirty region needs refreshing (`reset_dirty_region`) and what `initialize` returns are parameters. A client draws under the write lock of a shared surface. Surfaces that are not shared belong to the server, which does not draw on one in the middle of handling its node. After a notification a client drops only rectangles of drawings that the acknowledged age covers.

## Where the code does less than one might expect

* `replace_char` does not always give the lexicographically least result. For a given text it does exactly unless the needle is `a` and the text has two adjacent ones, or the needle is `b` and the text has `abb` or `bbb` (`ReplaceChar.LeastIffNotBad`). So it does for all texts exactly when the needle is neither `a` nor `b` (`ReplaceChar.LeastForAllTextsIff`).
* `my_compare` orders all pairs at distance up to a bound exactly when the bound fits an `int` (`SplitArray.CompareAgreesIff`).
* Dirty ages wrap. Equal ages mean that every drawing has been merged exactly when fewer than 2^32 drawings follow the stored age (`DirtySurface.MatchingAgeMeansMerged`; `DirtySurface.AgeWrapsAround` has the run). A pass leaves drawings unmerged exactly when their number from the stored age to the test is a positive multiple of 2^32 (`CompositePass.PassMergesEveryDrawingIff`).
* `composite_layer` unlocks a surface before it empties the dirty list. A drawing in between keeps the age moving, so a later merge is called for it, but its rectangle is thrown away with the list. That can happen exactly to nodes whose surface is shared and whose list the server itself empties: `cli == 0` or slot 0 (`DirtySurface.MissesIffRacy`, and for whole passes `LostRectangles.PassesMissIffRacy`).
* A merge is acknowledged only by the unlock that brings the count to zero. While somebody else holds the lock too, passes merge again and again and acknowledge nothing (`DirtySurface.NeverAcknowledgedUnderLock`, `DirtySurface.MergedUnderLock`).
* The saver reads the pixels of every depth but 4 and 8 four octets at a time. It leaves a bitmap of exactly `h * pitch` octets exactly when the last pixel of a row starts less than four octets before the end of the row (`BmpSave.ReadsBeyondIff`). What it meets there never reaches the file.
* Loading packs 4-bit pixels two to an octet, while saving takes one to an octet. Of all bitmaps of a size, saving what was loaded gives the same rows, and so the same file, exactly if they do not have 4 bits or have no pixels (`BmpResave.SavedAgainIff`); a single pixel is lost otherwise (`BmpResave.NotSavedAgain`). The saver even stays inside such a bitmap only if it is at most 4 pixels wide (`BmpFormat.LoadedIsReadableIff`).
* The sieve multiplies in 32 bits. No product leaves them exactly when `maxn` is at most 65537. The list is still that of the primes exactly as long as `maxn` is below 203897: the square of the prime 92683 wraps around to the prime 203897, so from there on one of the two is missing (`Sieve.EratosthenesSieve`, `WrappedProducts.ThiefHitsLost`). For the largest `unsigned` the loops over `i <= maxn` never end; the model leaves that value out.
* A node keeps data of a compositor that has been left exactly when that compositor has no operation to purge it (`Compositor` and `CompositorRuns.SwitchAt`).
* An RLE4 run pixel takes its nibble by the parity of its column. For a run that is not empty this is what the format says exactly if the run starts in an even column or its nibbles are equal (`Rle4.RunAsInFormatIff`). As in the code, an odd column is or-ed into its octet, and the vertical part of a delta is dropped.

## Model

| member | source | states |
|---|---|---|
| MemStream.MemRW.constructor | book-list/minigui/rwops.c:328-346 | the stream starts at the first of `size` bytes |
| MemStream.MemRW.SeekTo | book-list/minigui/rwops.c:130-156 | the cursor goes where asked, clamped to the buffer; an unknown origin changes nothing and returns -1 |
| MemStream.SeekOrigins | book-list/minigui/rwops.c:130-156 | offsets count from the start, the cursor or the end, and stop at either end of the buffer |
| MemStream.MemRW.Read | book-list/minigui/rwops.c:157-168 | moves `min(count, room / size)` whole items into the destination and no other byte |
| MemStream.ItemsAreMost | book-list/minigui/rwops.c:157-177 | a transfer moves as many items as were asked for, or so many that one more would not fit |
| MemStream.MemRW.WriteFrom | book-list/minigui/rwops.c:169-177 | writes `min(count, room / size)` whole items and no byte past the end |
| MemStream.MemRW.Unget | book-list/minigui/rwops.c:179-188 | steps back and stores the character, or returns EOF at the start |
| MemStream.MemRW.Eof | book-list/minigui/rwops.c:202-207 | true exactly when nothing is left |
| MemStream.MemRW.Getc | book-list/minigui/rwops.c:367-375 | the next character, or EOF |
| MemStream.RunKeepsTape | book-list/minigui/rwops.c:130-189 | any sequence of seeks, reads, writes and ungets stays inside the buffer and keeps its length; without writes and ungets it changes no byte |
| MemStream.ReadSplits | book-list/minigui/rwops.c:157-168 | reading n and then m items equals reading n + m, also when the room runs out |
| MemStream.WriteSeekRead | book-list/minigui/rwops.c:130-177 | what was written is read back after seeking to where it was written |
| MemStream.UngetThenRead | book-list/minigui/rwops.c:179-188 | a character pushed back is the next one read |
| Rle8.ReadRle8 | book-list/minigui/winbmp.c:230-277 | the decoder paints exactly the decoded cells, leaves skipped columns and all other memory alone, and terminates on every stream |
| Rle8.ReadOp | book-list/minigui/winbmp.c:236-274 | one turn of the loop: runs, absolute mode with its pad octet, deltas and end codes |
| Rle8.ErrorIffPassed | book-list/minigui/winbmp.c:230-277 | on every stream: an error exactly when the column passed the width, never beyond width + 255; a success painted columns 0 to width - 1 only |
| Rle8.DecodeInvertsSerialise | book-list/minigui/winbmp.c:230-277 | every list of operations that stays within the width decodes to its flag and its expansion, and the stream is left just past the end code |
| Rle8.RunOctets | book-list/minigui/winbmp.c:239-245 | from the octets: `n`, `b` is decoded as n pixels b, and decoding goes on behind them |
| Rle8.LiteralOctets | book-list/minigui/winbmp.c:262-270 | 0, `n` and n octets with a pad octet if n is odd are decoded as these pixels |
| Rle8.DeltaOctets | book-list/minigui/winbmp.c:257-261 | 0, 2, `dx`, `dy` skips dx columns and paints nothing |
| Rle8.EndOctets | book-list/minigui/winbmp.c:247-255 | 0, 0 ends the line and 0, 1 the picture |
| Rle8Image.PictureLoads | book-list/minigui/winbmp.c:505-540 | a whole RLE8 picture loads: rows are filled bottom-up and an end of picture stops the load successfully |
| Rle8Image.PictureAt | book-list/minigui/winbmp.c:505-540 | pixel by pixel: line k paints row n - 1 - k, skipped pixels and rows without a line keep their old contents |
| Rle8Image.PictureAbove | book-list/minigui/winbmp.c:505-540 | memory behind the rows is not touched |
| Rle4Image.PictureLoads | book-list/minigui/winbmp.c:505-540 | a whole picture of delta-free RLE4 lines loads, bottom-up and up to its end code, each row with the packed pixels of its line |
| Rle4Image.PictureAt | book-list/minigui/winbmp.c:505-540 | octet by octet: row n - 1 - k starts with the packed line k; the rest of each row and rows without a line keep their old contents |
| Rle4Image.PictureAbove | book-list/minigui/winbmp.c:505-540 | memory behind the rows is not touched |
| Rle4.ReadRle4 | book-list/minigui/winbmp.c:283-347 | the decoder paints exactly the decoded nibbles, also when a run returns early, and terminates on every stream |
| Rle4.ReadOp | book-list/minigui/winbmp.c:290-344 | one turn of the loop: runs by column parity with their early return, absolute mode, deltas and end codes |
| Rle4.FillRun | book-list/minigui/winbmp.c:294-304 | a run paints exactly the decoded cells, and gives up right after painting column `width` |
| Rle4.RunAsInFormatIff | book-list/minigui/winbmp.c:294-304 | for every run that is not empty: its nibbles alternate from its first pixel, as the format says, exactly if it starts in an even column or its nibbles are equal |
| Rle4.FillLiteral | book-list/minigui/winbmp.c:322-340 | absolute mode consumes ceil(n / 4) words and paints their nibbles in order |
| Rle4.ErrorIffPassed | book-list/minigui/winbmp.c:283-347 | on every stream: an error exactly when the decoder painted or skipped past the width; a success painted columns 0 to width - 1 only |
| Rle4.DecodeInvertsSerialise | book-list/minigui/winbmp.c:283-347 | every list of operations that stays within the width decodes to its flag and expansion, and the stream is left just past the end code |
| Rle4.RunOctets | book-list/minigui/winbmp.c:294-304 | from the octets: the pixels of `n`, `b` are the high nibble of b in even columns and the low one in odd columns; past the width the run stops after column `width` with an error |
| Rle4.LiteralOctets | book-list/minigui/winbmp.c:322-340 | 0, `n` and whole words are decoded as n pixels, the high nibble of each octet first |
| Rle4.DeltaOctets | book-list/minigui/winbmp.c:316-320 | 0, 2, `dx`, `dy` skips dx columns and paints nothing |
| Rle4.EndOctets | book-list/minigui/winbmp.c:307-314 | 0, 0 ends the line and 0, 1 the picture |
| Rle4.NibblePainted | book-list/minigui/winbmp.c:298-301 | painting an even column clears the nibble of the next one, painting an odd one keeps the nibble before it and ors its own |
| Rle4.DecodedRowIsPackedRow | book-list/minigui/winbmp.c:283-347 | any delta-free line, however it is cut into runs and absolute chunks, decodes to the octets that the row packer makes of its pixels |
| Rle4.PaintIsPack | book-list/minigui/winbmp.c:298-301 | setting even and or-ing odd columns from column 0 leaves exactly the packed row |
| Rle4.Get16CScanline | book-list/minigui/winbmp.c:557-570 | packs the low nibbles of a row, high nibble first, and touches no further octet |
| BmpLoad.ReadBmFileHeader | book-list/minigui/winbmp.c:144-156 | the fourteen octets of the file header |
| BmpLoad.ReadWinBmInfoHeader | book-list/minigui/winbmp.c:162-184 | the fields of the forty-octet info header |
| BmpLoad.ReadOs2BmInfoHeader | book-list/minigui/winbmp.c:190-205 | the fields of the twelve-octet info header |
| BmpLoad.ReadBmiColors | book-list/minigui/winbmp.c:211-222 | the palette entries in order, nothing for a count that is not positive, the rest of the palette unchanged |
| BmpLoad.InitBmp | book-list/minigui/winbmp.c:399-461 | success exactly for the magic number and a known header size; dimensions, depth, pitch and palette come from the headers, and a failure leaves the bitmap alone |
| BmpLoad.Read16BitImage | book-list/minigui/winbmp.c:353-381 | a row of 5-5-5 or 5-6-5 pixels widened to three octets each, and the gap word of an odd width |
| BmpLoad.WideIsFaithful | book-list/minigui/winbmp.c:360-373 | widening loses no bit that the format has |
| BmpLoad.LoadRow | book-list/minigui/winbmp.c:507-531 | one row of each kind: raw, 16-bit, RLE8, RLE4 |
| BmpLoad.LoadBmp | book-list/minigui/winbmp.c:471-544 | rows from the last to the first until an end of picture or an error; an unknown compression fails and changes nothing |
| BmpLoad.StopsAt | book-list/minigui/winbmp.c:505-543 | on every stream the first row that does not go well ends the load with an error, and one that ends the picture ends it with success; the rows below are not touched and nothing more is read |
| BmpLoad.ReadsAllRows | book-list/minigui/winbmp.c:505-540 | without such a row the load succeeds behind its last row |
| BmpLoad.RowsAlwaysFit | book-list/minigui/winbmp.c:505-531 | on every stream, the rows and one overshoot behind them (255 octets for RLE8, 32768 for RLE4) are memory enough |
| BmpFiles.HeaderOfOctets | book-list/minigui/winbmp.c:144-205 | which numbers, in which octets of a Windows or an OS/2 header, become width, height, bit count, compression and the number of palette entries, and where the palette starts |
| BmpFiles.RefusedIff | book-list/minigui/winbmp.c:411-440 | a file is refused exactly without the two letters or with another size of header |
| BmpFiles.Open | book-list/minigui/winbmp.c:399-461 | from the octets of headers and palette to dimensions, depth, pitch and every palette entry; the stream is left behind them |
| BmpFiles.RowsShown | book-list/minigui/winbmp.c:353-537 | rows of the file fill the bitmap from the last row up: 16-bit words widened to 5-5-5 or 5-6-5, other rows octet by octet; memory behind them is kept |
| BmpFiles.LoadPlain | book-list/minigui/winbmp.c:399-544 | a whole file that is not compressed, also with masks before the rows: it loads, and every pixel is that of its word or octets; words are 5-6-5 exactly if there are masks and the one for green is not 0x03e0 |
| BmpFiles.LoadRle8 | book-list/minigui/winbmp.c:399-544 | a whole file with compression 1 loads, and every pixel is what its run-length line says, or what was there |
| BmpFiles.LoadRle4 | book-list/minigui/winbmp.c:399-544 | a whole file with compression 2 and delta-free lines loads, and every octet is that of its two pixels, or what was there |
| BmpFiles.LoadOther | book-list/minigui/winbmp.c:481-503 | every other compression is refused without touching a pixel |
| BmpFiles.SavedHeads | book-list/minigui/winbmp.c:673-699 | the header of a saved file in octets: width, height, bit count, no compression, the number of colours |
| BmpFiles.SavedOtherFields | book-list/minigui/winbmp.c:673-699 | its other fields: the length of the file, the size of the rows, one plane, the colours used |
| BmpFormat.PitchIsScanlineBytes | book-list/minigui/winbmp.c:445-445 | the loader's pitch of a saved file is the saver's row size |
| BmpFormat.ScanlineIsLeast | book-list/minigui/winbmp.c:660-769 | a row of the file has the least number of whole double words that holds its bits |
| BmpFormat.WritesThatFit | book-list/minigui/winbmp.c:683-712 | with enough room the single writes put down the whole file |
| BmpFormat.WholeImageReadable | book-list/minigui/winbmp.c:709-710 | every bitmap whose rows fit its pitch and its memory can be saved |
| BmpFormat.LoadedIsReadableIff | book-list/minigui/winbmp.c:709-804 | the saver stays inside a loaded bitmap exactly if it does not have 4 bits, has no rows, or is at most 4 pixels wide |
| BmpResave.SavedAgainIff | book-list/minigui/winbmp.c:471-813 | of all bitmaps of a size, saving what was loaded gives the same rows exactly if they do not have 4 bits or have no pixels |
| BmpResave.RowSavedAgain | book-list/minigui/winbmp.c:572-621 | an 8- or 24-bit row in the file's form is its own form in the file |
| BmpResave.NotSavedAgain | book-list/minigui/winbmp.c:557-570 | for every other size, a 4-bit bitmap and what loading makes of it that are not saved alike |
| BmpResave.FileSavedAgain | book-list/minigui/winbmp.c:641-813 | the same rows make the same file |
| BmpSave.WidePixel | book-list/minigui/winbmp.c:610-616 | the colour of a pixel does not depend on the further octets of its wide read |
| BmpSave.ReadsBeyondIff | book-list/minigui/winbmp.c:602-621 | exactly when the wide reads leave a bitmap of `h * pitch` octets |
| BmpSave.FourPixelsReadBeyond | book-list/minigui/winbmp.c:602-621 | for instance a single row of four 24-bit pixels |
| BmpSave.GetHighCScanline | book-list/minigui/winbmp.c:602-621 | a row of wide pixels becomes blue, green and red octets, in place in the reused buffer, whatever lies behind the bitmap |
| BmpSave.GetScanline | book-list/minigui/winbmp.c:557-621 | one row of any depth in the file's form, its padding zero |
| BmpSave.WritePalette | book-list/minigui/winbmp.c:701-707 | each palette entry as blue, green, red and an arbitrary reserved octet |
| BmpSave.WriteRows | book-list/minigui/winbmp.c:709-712 | rows are written bottom-up through one buffer, and none leaves anything behind in the padding of the next |
| BmpSave.SaveBmp | book-list/minigui/winbmp.c:641-813 | headers, palette and rows are written, as far as the stream has room, and nothing else |
| BmpRoundTrip.HeaderReadsBack | book-list/minigui/winbmp.c:399-461 | the headers of a saved file read back with the dimensions, bit count and colour count |
| BmpRoundTrip.PaletteReadsBack | book-list/minigui/winbmp.c:211-222 | palette entries read back in order, whatever the reserved octets are |
| BmpRoundTrip.FileFlattens | book-list/minigui/winbmp.c:673-712 | the octets written number exactly `bfSize` |
| BmpRoundTrip.ChunksAreRows | book-list/minigui/winbmp.c:709-712 | the writes of the rows are the rows, last one first |
| BmpRoundTrip.FileReadsBack | book-list/minigui/winbmp.c:399-461 | after the headers and the palette the cursor is at `bfOffBits`, and the rows follow |
| BmpRoundTrip.RawRowsLoad | book-list/minigui/winbmp.c:505-537 | raw rows are filled bottom-up and memory behind the last row is left alone |
| BmpRoundTrip.TrueColourKept | book-list/minigui/winbmp.c:602-621 | at depth 24 a saved row is the row itself |
| BmpRoundTrip.FourthOctetLost | book-list/minigui/winbmp.c:602-621 | at depth 32 each pixel loses its fourth octet and nothing else |
| BmpRoundTrip.HighColourWidened | book-list/minigui/winbmp.c:578-621 | at depths 15 and 16 each pixel is saved with its bits on top of three octets and ones below them |
| BmpRoundTrip.UnknownDepthIsBlack | book-list/minigui/winbmp.c:578-621 | pixels of an unknown depth are saved black |
| BmpRoundTrip.SmallPixelsKept | book-list/minigui/winbmp.c:557-576 | at depth 4 two low nibbles share an octet, the first one on top; at depth 8 octets are saved as they are |
| BmpRoundTrip.LoadBack | book-list/minigui/winbmp.c:471-544 | loading a saved file at the cursor gives back dimensions, palette and rows |
| BmpRoundTrip.SaveThenLoad | book-list/minigui/winbmp.c:641-813 | for every bitmap whose rows are in its memory: saving into a large enough stream, rewinding and loading gives back width, height, bit count, palette and every row in the file's form |
| Compositor.Manager.constructor | book-list/minigui/compsor-manager.c:78-83 | slot 0 holds the fallback, the others are free |
| Compositor.Manager.GetCompositorOps | book-list/minigui/compsor-manager.c:500-514 | the operations of the first slot with the name |
| Compositor.Manager.RegisterCompositor | book-list/minigui/compsor-manager.c:516-533 | by fields: the first free slot takes the first fifteen characters of the name and the operations, and nothing else changes; without a free slot, a name or operations it refuses |
| CompositorRuns.RegisteredIsFound | book-list/minigui/compsor-manager.c:500-533 | a new name is registered exactly if there is a free slot, is found afterwards, and other names keep their operations |
| Compositor.Manager.UnregisterCompositor | book-list/minigui/compsor-manager.c:535-558 | frees the first slot with the name, but never the fallback's nor the current compositor's |
| Compositor.Manager.PurgeAll | book-list/minigui/compsor-manager.c:396-432 | pop-ups and then windows hand their data back where there is an operation for it |
| Compositor.Manager.RebuildAll | book-list/minigui/compsor-manager.c:434-468 | visible pop-ups and then visible windows are shown to the compositor |
| Compositor.Manager.SelectCompositor | book-list/minigui/compsor-manager.c:560-600 | by fields: with a name whose first slot holds other operations, and an initialisation that succeeds, these become current with the new context, the slots stay, the calls start with the initialisation and end with the refresh, and they are returned; otherwise nothing changes |
| Compositor.SelectSwitchesOrNot | book-list/minigui/compsor-manager.c:560-600 | the same for the specification: a selection switches exactly when it can, and otherwise leaves the state as it is |
| Compositor.SelectedByFields | book-list/minigui/compsor-manager.c:560-600 | what a selection returns: the current compositor without a name, if it is selected again, or if the initialisation fails; none for an unknown name; otherwise the new one |
| Compositor.Manager.SwitchTo | book-list/minigui/compsor-manager.c:583-593 | purge and terminate the old compositor, make the new one current, rebuild and refresh |
| CompositorRuns.RunKeepsInvariant | book-list/minigui/compsor-manager.c:500-600 | after any run: the current compositor is none or held by an occupied slot, slot 0 maps "fallback" to the built-in operations, and no callback ever went to a context that was not live |
| CompositorRuns.InitialisationsBalance | book-list/minigui/compsor-manager.c:560-600 | after any run successful initialisations minus terminations is 1 if there is a current compositor and 0 otherwise |
| CompositorRuns.SwitchKeepsLog | book-list/minigui/compsor-manager.c:581-593 | a switch calls only live contexts, the old one until its termination and the new one from its initialisation on |
| CompositorRuns.RunKeepsOwned | book-list/minigui/compsor-manager.c:396-468 | after any run of compositors that can purge what they store, with nodes shown, hidden, opened and closed in between, every piece of private data belongs to the current context |
| CompositorRuns.SwitchAt | book-list/minigui/compsor-manager.c:581-593 | exactly which data each node has after a switch |
| CompositorRuns.ShownOnce | book-list/minigui/compsor-manager.c:581-593 | a switch calls the new compositor's `on_showing` exactly once for each visible node and for no other |
| CompositorRuns.PurgedOnce | book-list/minigui/compsor-manager.c:583-586 | a switch hands each node's data back to the old compositor exactly once if that has an operation for it |
| CompositorRuns.SwitchInOrder | book-list/minigui/compsor-manager.c:581-593 | the calls come in order: initialise, purge, terminate, pop-ups shown, windows shown, refresh |
| CompositorRuns.SelectionAt | book-list/minigui/compsor-manager.c:560-600 | which data each node has after a selection that switches |
| CompositorRuns.SelectionShowsOnce | book-list/minigui/compsor-manager.c:560-600 | such a selection calls `on_showing` exactly once for each visible node and for no other |
| CompositorRuns.SelectionPurgesOnce | book-list/minigui/compsor-manager.c:560-600 | it hands each node's data back to the old compositor exactly once if that has an operation for it |
| CompositorRuns.SelectionTerminatesOnce | book-list/minigui/compsor-manager.c:560-600 | it terminates the old context exactly once and no other |
| CompositorRuns.SelectionInOrder | book-list/minigui/compsor-manager.c:560-600 | its calls come in order: initialise, purge, terminate, pop-ups shown, windows shown, refresh |
| CompositeServer.Server.LockZnodeSurface | book-list/minigui/compsor-manager.c:132-145 | counted lock: the first one takes the file lock of a shared surface and copies the age and the list |
| CompositeServer.Server.MergeIfDirty | book-list/minigui/compsor-manager.c:302-305 | merges exactly if the surface's age is not the stored one |
| CompositeServer.Server.UnlockZnodeSurface | book-list/minigui/compsor-manager.c:147-169 | the last unlock stores the age, releases the file lock and asks for a reset exactly if the age had changed |
| CompositeServer.Server.ResetZnodeSurfaceDirty | book-list/minigui/compsor-manager.c:171-181 | the server empties its own lists and those of slot 0, and notifies other clients that have a window |
| CompositeServer.Server.LockLayer | book-list/minigui/compsor-manager.c:293-336 | pop-ups and wallpaper of the topmost layer and all visible windows are locked and tested once each, in order, while clients draw |
| CompositeServer.Server.UnlockLayer | book-list/minigui/compsor-manager.c:340-369 | the same nodes are unlocked in the same order and acknowledged if due, while clients draw |
| CompositeServer.Server.CompositeLayer | book-list/minigui/compsor-manager.c:280-370 | a layer that is not dirty is left alone; otherwise its nodes are locked and tested, it is refreshed, and its nodes are unlocked, while clients act in between |
| CompositeServer.Server.CompositeDirtyZnodes | book-list/minigui/compsor-manager.c:372-392 | a pass with clients acting between any two steps has the stated outcome for every node, and in its log every dirty layer is refreshed exactly once, after all tests and before all unlocks of its nodes; a clean one never |
| DirtySurface.RunKeepsBalance | book-list/minigui/compsor-manager.c:132-169 | from any count, in every reachable state: the count has grown by the pass's own lock at most, and the file lock of a shared surface is held exactly while the count is positive |
| DirtySurface.NeverAcknowledgedUnderLock | book-list/minigui/compsor-manager.c:150-156 | while the count stays positive no age is stored and no merge acknowledged |
| DirtySurface.MergedUnderLock | book-list/minigui/compsor-manager.c:301-305 | a pass over such a node merges it and acknowledges nothing |
| DirtySurface.StepKeepsNode | book-list/minigui/compsor-manager.c:132-181 | every step of the server or a client keeps the node's invariant: lock count, file lock, copied age and list, stored age, merges and acknowledgements |
| DirtySurface.RunKeepsNode | book-list/minigui/compsor-manager.c:132-181 | the invariant holds in every reachable state |
| DirtySurface.RunKeepsNotices | book-list/minigui/compsor-manager.c:176-180 | a client with a window is told once for each acknowledgement, and last of all the age that is stored; no other node sends anything |
| DirtySurface.ResetByFields | book-list/minigui/compsor-manager.c:171-181 | a reset empties the list if `cli` is 0 or the slot is, and otherwise tells a client with a window the stored age |
| DirtySurface.MatchingAgeMeansMerged | book-list/minigui/compsor-manager.c:147-156 | in every reachable state the stored age equals the surface's exactly when a multiple of 2^32 drawings followed it, and then every drawing has been merged exactly when fewer than 2^32 did |
| DirtySurface.AgeWrapsAround | book-list/minigui/compsor-manager.c:147-156 | 2^32 drawings in a row are hidden by the wrap-around, so the bound is needed |
| DirtySurface.TestedAgeIsStored | book-list/minigui/compsor-manager.c:301-305 | nothing comes between lock, test and unlock, so the age the merge test sees is the age stored at the unlock |
| DirtySurface.PassOverNode | book-list/minigui/compsor-manager.c:280-370 | a node's part of a pass under any interleaving: one merge of everything drawn before the test, or none exactly if the drawings since the stored age are a multiple of 2^32; it misses exactly the rectangles that the list had lost before |
| DirtySurface.MissesIffRacy | book-list/minigui/compsor-manager.c:171-181 | rectangles that no merge was given exist in some run exactly if the surface is shared and the server resets its list |
| DirtySurface.RunKeepsList | book-list/minigui/compsor-manager.c:171-181 | for all other nodes no run ever misses a rectangle |
| DirtySurface.RacyCanMiss | book-list/minigui/compsor-manager.c:342-348 | the run that loses a rectangle: a drawing between the unlock and the reset |
| DirtySurface.LossesAreConserved | book-list/minigui/compsor-manager.c:147-181 | exactly the drawings between an unlock and its reset lose their rectangles: those missed so far and those to be missed by the next merge add up to them |
| DirtySurface.StepLoses | book-list/minigui/compsor-manager.c:132-181 | only a reset by the server loses rectangles, namely of the drawings since the unlock, and only a merge finds out |
| CompositePass.Projection | book-list/minigui/compsor-manager.c:280-370 | in an interleaved run each node goes through its own steps, whatever happens to the others |
| CompositePass.LegalTogether | book-list/minigui/compsor-manager.c:280-370 | conversely, steps that are legal for each node are possible in any interleaving |
| CompositePass.LocksInEveryReachableState | book-list/minigui/compsor-manager.c:132-169 | from any counts, under any interleaving: counts are restored and the file lock of a shared surface is held exactly while its count is positive |
| CompositePass.EveryReachableState | book-list/minigui/compsor-manager.c:132-181 | under any interleaving: every node is in order, equal ages mean merged exactly while fewer than 2^32 drawings follow the stored age, and unless the server empties a shared list no rectangle is missed or lost |
| CompositePass.LossesInEveryReachableState | book-list/minigui/compsor-manager.c:340-369 | the same account under any interleaving |
| CompositePass.NodesOfFacts | book-list/minigui/compsor-manager.c:293-336 | which nodes a layer's walk visits, and none of them twice |
| CompositePass.OfPass | book-list/minigui/compsor-manager.c:372-392 | a pass locks, tests and unlocks each composited node once and no other node |
| CompositePass.PassUnderInterleaving | book-list/minigui/compsor-manager.c:372-392 | a pass under any interleaving: counts and locks restored, one acknowledgement for each merge, each composited node tested once with the exact effect on its drawings and rectangles, other nodes not merged |
| CompositePass.PassMergesEveryDrawingIff | book-list/minigui/compsor-manager.c:372-392 | every drawing made before the test is merged exactly if their number since the stored age is not a positive multiple of 2^32, and every rectangle of them reaches a merge exactly if besides the list had lost none before |
| LostRectangles.PassesMissIffRacy | book-list/minigui/compsor-manager.c:340-369 | two passes over a fresh scene can leave a drawing whose rectangle no merge was given exactly if the surface is shared and the server resets its list |
| LostRectangles.RaceMisses | book-list/minigui/compsor-manager.c:342-348 | the interleaving of two passes that loses it |
| CompositePass.EachLayerOnce | book-list/minigui/compsor-manager.c:380-391 | each layer of the list once, the topmost first |
| PassOrder.PassInOrder | book-list/minigui/compsor-manager.c:280-392 | under any interleaving: each layer is reset once, and refreshed once if it is dirty and otherwise not at all; the test of every node it shows precedes the refresh, and the unlock of every such node follows it |
| PassOrder.LayersInOrder | book-list/minigui/compsor-manager.c:380-391 | all steps for one layer precede those for the next, the topmost layer first |
| PassOrder.WalkInOrder | book-list/minigui/compsor-manager.c:293-369 | the nodes of a layer are tested, and unlocked, in the order pop-ups, windows, wallpaper |
| PrimeFactors.PrimeFactors | source/samples/prime_factors.c:35-77 | the strictly increasing list of exactly the primes dividing the argument; the residual ends at 1, every store has room, and the loop ends although its bound shrinks |
| PrimeFactors.DivideOut | source/samples/prime_factors.c:53-56 | dividing by a prime loses no prime divisor but possibly itself |
| PrimeFactors.LeastDivisorIsPrime | source/samples/prime_factors.c:51-52 | the divisor the loop meets next is prime |
| PrimeFactors.NextFits | source/samples/prime_factors.c:51-51 | the counter never wraps around |
| Sieve.EratosthenesSieve | source/samples/primes.cpp:7-26 | with wrapping products, for every `maxn` on which the loops end: what is appended is the list of primes up to `maxn` exactly as long as `maxn` is below 203897, and from there on a prime is missing; no product leaves 32 bits exactly when `maxn` is at most 65537 |
| Sieve.CrossOut | source/samples/primes.cpp:21-22 | as long as `maxn` is below 203897 or no product left 32 bits, crosses out exactly the multiples from the square on; it never puts a number back, and always crosses out the wrapped square |
| Sieve.EndRound | source/samples/primes.cpp:21-22 | when the inner loop ends the array is right for the next number, also after harmless wrapped stores |
| WrappedProducts.SquareWindows | source/samples/primes.cpp:21-22 | the ten numbers whose wrapped squares can be stored |
| WrappedProducts.WrappedStoresAreHarmless | source/samples/primes.cpp:21-22 | below the first lost prime a wrapped store of a prime is at a composite number or at one passed already, and there are at most two in a row |
| WrappedProducts.ThiefHitsLost | source/samples/primes.cpp:21-22 | 92683 and 203897 are primes and the square of the first wraps to the second |
| Sieve.CrossedIffComposite | source/samples/primes.cpp:15-22 | starting at the square misses no composite |
| Sieve.SieveAgreesWithFactoriser | source/samples/prime_factors.c:53-70 | the factoriser's list is the list of primes, which the sieve gives as long as its bound is below 203897, filtered by divisibility |
| Primes.EuclidsLemma | source/samples/prime_factors.c:51-68 | a prime dividing a product divides a factor: why trial division by each `u` once is enough |
| Primes.LeastPrimeFactor | source/samples/primes.cpp:21-22 | a composite has a prime factor whose square does not exceed it |
| SplitArray.CompareAgreesIff | source/samples/split_array-tuned.c:60-67 | the comparator orders pairs up to a distance exactly when the distance fits an `int` |
| SplitArray.SplitArray | source/samples/split_array-tuned.c:70-112 | both halves have ceil(size / 2) elements and are, index by index, outermost pair to the first, next pair to the second and so inwards in the sorted array |
| SplitArray.DealPairs | source/samples/split_array-tuned.c:76-93 | the dealing loop fills both halves by index, up to one element that the first got too many |
| SplitArray.Deal | source/samples/split_array-tuned.c:76-111 | the dealing loop and the balancing fill both halves by index, all asserts hold, every write fits size / 2 + 2 |
| SplitArray.HalvesByIndex | source/samples/split_array-tuned.c:81-100 | the loop's indices are the outside-in halves |
| SplitArray.Conservation | source/samples/split_array-tuned.c:81-107 | the halves together are the input plus one more copy of the median of an odd-sized input |
| SplitArray.DifferenceBound | source/samples/split_array-tuned.c:126-137 | every running difference stays within plus or minus the spread of the array |
| SplitArray.CalcDiffL | source/samples/split_array-tuned.c:126-137 | the difference of the sums, with every partial result in a `long` |
| SplitArray.CalcDiffF | source/samples/split_array-tuned.c:114-124 | the same difference over exact reals |
| SplitArray.SplitAndDiff | source/samples/split_array-tuned.c:140-152 | split and subtract: no overflow, and the result is bounded by the spread |
| Fnv.BodyIsStep64 | source/samples/str2key.c:41-42 | shifting and adding multiplies by the FNV prime modulo 2^64 |
| Fnv.BodyIsStep32 | source/samples/str2key.c:44-44 | shifting and adding multiplies by the FNV prime modulo 2^32 |
| Fnv.Str2Key | source/samples/str2key.c:18-53 | the FNV-1a hash of the text up to its NUL or the given length, where 0 is no limit; 0 for no string |
| Fnv.Str2Key32 | source/samples/str2key.c:18-53 | the same for 32-bit words |
| Fnv.HashedText | source/samples/str2key.c:23-30 | which octets a call hashes: those of the text, all of them for length 0, and otherwise at most `length` |
| Fnv.KeysByOctets | source/samples/str2key.c:32-49 | the hash of nothing is the offset basis, and each octet is xor-ed and multiplied by the prime modulo the word |
| Fnv.StepIsABijection | source/samples/str2key.c:32-49 | each step permutes the words |
| Fnv.SuffixKeepsStatesApart | source/samples/str2key.c:32-49 | a common suffix neither creates nor removes a collision |
| Fnv.OneOctetApartNeverCollide | source/samples/str2key.c:18-53 | strings of equal length that differ in exactly one octet never collide |
| Fnv.CallsNeverCollide | source/samples/str2key.c:18-53 | the same for two calls with texts of which equally long, hashed parts differ in exactly one octet |
| PerfectHash.TryWithNrSlots | source/samples/str2key.c:72-105 | true exactly when no two keywords share a slot |
| PerfectHash.PerfectByTexts | source/samples/str2key.c:72-105 | for keywords given by their texts: a slot count is perfect exactly if no two of their hashes agree modulo it |
| PerfectHash.ImageSize | source/samples/str2key.c:86-104 | counting occupied slots decides injectivity |
| PerfectHash.TooFewSlots | source/samples/str2key.c:109-109 | starting the search at the number of keywords misses nothing |
| PerfectHash.FindNrSlots | source/samples/str2key.c:107-121 | the least slot count that works, or none below ten times the number of keywords |
| ReplaceChar.ReplaceChar | source/samples/replace_char.c:28-54 | the text becomes the greedy result, what follows it is unchanged, and the number of needles is returned |
| ReplaceChar.CountIsMultiplicity | source/samples/replace_char.c:28-54 | the number returned is that of the needles in the text |
| ReplaceChar.ReplacedIsSolution | source/samples/replace_char.c:28-54 | only needles change, each into a letter that differs from both final neighbours |
| ReplaceChar.ReplacedIsLeast | source/samples/replace_char.c:37-47 | without a bad place no other solution is lexicographically less |
| ReplaceChar.BadIsNotLeast | source/samples/replace_char.c:37-47 | with a bad place there is a smaller solution |
| ReplaceChar.LeastIffNotBad | source/samples/replace_char.c:28-54 | for every text and needle, the result is least exactly if the text has no two adjacent `a` for the needle `a`, and no `abb` or `bbb` for the needle `b` |
| ReplaceChar.LeastForAllTextsIff | source/samples/replace_char.c:28-54 | it is least for all texts exactly when the needle is neither a nor b |
| ReplaceChar.CounterexampleForA | source/samples/replace_char.c:37-47 | a text for which replacing `a` is not least |
| ReplaceChar.CounterexampleForB | source/samples/replace_char.c:37-47 | a text for which replacing `b` is not least |

## Left out

- BmpLoad.LoadBmp: does not model the scanline callback or its one-line buffer; images are loaded in full.
- BmpFiles.Open: says nothing of an OS/2 file whose pixels would start inside its header; `BmpLoad.InitBmp` covers it.
- BmpLoad.InitBmp: does not model the flags word, nor a palette shorter than the headers ask for.
- Rle4.ErrorIffPassed: the overshoot is bounded by 65535, not 255, because the end of the file reads as 65535 there.
- Sieve.EratosthenesSieve: above 203896 it says that a prime is missing, not which numbers the list has instead.
- PrimeFactors.PrimeFactors: does not model failing `malloc` and `realloc`.
- PerfectHash.TryWithNrSlots: prints nothing, and `memset` of the slot array is its initialisation.
- SplitArray.CalcDiffF: floating-point rounding.
- Compositor.Manager.SelectCompositor: the nodes are values inside the manager's desktop, so aliasing between nodes is not captured.
- CompositeServer.Server.CompositeDirtyZnodes: the node fields are values in one map; the number of dirty rectangles a list can hold is not bounded.
- `ServerGetCurrentCompositor`, a lookup by operations that duplicate names and a missing current compositor make ambiguous.
- `mg_InitCompositor`, `mg_TerminateCompositor` and the loading of a compositor from a shared library.
- The compositor pass that is compiled out.
- Streams over stdio, allocation of stream structures, closing a stream.
- BI_BITFIELDS masks beyond the choice between 5-5-5 and 5-6-5, and big-endian hosts.
- The interactive and printing parts of the samples and their random test data.
