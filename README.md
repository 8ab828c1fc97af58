# SerialDisk server: a Dafny model of its protocol core

The SerialDisk server runs on a PC and lends RK05 disk images to a PDP-8 over a serial line. The PDP-8 handler sends a one-byte command and the server answers:

- `NUL` sends the second-stage bootstrap in HELP-loader format, the third-stage bootstrap as 6-bit word pairs, and then patched pieces of block 0.
- `@` sends block 0 of the system disk.
- `A` .. `H` select one side of one of four drives and run a transfer.
- `Q` quits.

A transfer has these steps:

- It reads three parameter words, or four in DIAL mode.
- It validates them, recording failures in an acknowledgment word.
- It sends back a CDF instruction, the negative word count and the acknowledgment.
- If the request was accepted, it moves pages between the PDP-8 and the image file.
- It ends with a DONE or NACK word.

Words are 12 bits. On the wire a word travels as two 6-bit bytes, and in the image file it is stored in a packed little-endian layout.

The model is split into five modules:

- `Words` (`words.dfy`) covers the 12-bit word, the 6-bit byte pairs of `decode_word` and `send_word`, and the protocol constants.
- `Repack` (`repack.dfy`) covers the two byte-layout conversions `pdp_to_djg` and `djg_to_pdp`:
  - `ToStore` and `ToWire` are the functions that specify them;
  - `PdpToDjg` and `DjgToPdp` are the array loops proved against those functions.
- `Transfer` (`transfer.dfy`) is a pure specification of `initialize_xfr`:
  - `DecodeRequest` decodes the parameter words of the OS/8 and DIAL formats;
  - `Resolve` gives the resulting transfer variables;
  - `Failures` lists the validation failures in the order of the checks.
  - The half-block padding appears twice: as written (`PadAsWritten`, which the server uses) and corrected (`PadHalfBlock`, see Findings).
- `HelpLoader` (`helploader.dfy`) holds the two bootstrap tables, the HELP-loader byte encoding and its decoder, and the three patches of block 0.
- `Server` (`server.dfy`) holds the class `DiskServer`, whose fields are the server's globals:
  - the transfer variables, the selected disk, and the three buffers `buf`, `disk_buf` and `converted_disk_buf` as arrays;
  - the disk table, the DIAL flag, the serial line and the disk images.
  - Its methods are the operations of the command loop, proved against the functions of the other modules.

The serial line is abstract:

- `rx` holds the bytes that have arrived.
- `bursts` holds what the client sends later.
- A blocking read pulls bursts in until it has enough bytes. If the client never sends enough, the server waits forever, and the model stops with outcome `Hung`.
- The non-blocking read that follows a transfer only sees bytes that have already arrived.
- Every byte the server offers to `ser_write` is recorded in the log `sent`.
- How much of one write the link takes is given by the function `link`, of the bytes offered before that write. A write is short when `link` allows fewer bytes than it offers, so every write can be short or whole independently of the others.

Each disk image is a byte sequence. Reads past its end come back short. A write of at least one byte that starts past its end zero-fills the gap. A write of no bytes leaves the image as it was, wherever it is aimed.

A command ends in one of four outcomes:

- `Continue`: the server waits for the next command.
- `Hung`: a blocking read will never complete.
- `Quit`: the client sent `Q`.
- `Overflow`: a DIAL transfer larger than `disk_buf`. The C code writes past the end of that buffer, and the model stops instead.

`CommandLoop` is proved to terminate on every finite input. It is also proved never to change the image of a disk that is not in use or is write-protected.

## Model

| member | source | states |
|---|---|---|
| Words.DecodeWord | SerialDisk/server/server.c:813-816 | decode_word: the word at position pos, low six bits from byte 2*pos and high six bits from byte 2*pos+1; its properties are the lemmas below |
| Words.WordBytes | SerialDisk/server/server.c:842-848 | the two bytes send_word puts in buf: (w >> 6) & 077, then w & 077 |
| Words.DecodeWordHalves | SerialDisk/server/server.c:813-816 | the decoded word's high six bits come from the second byte and its low six bits from the first byte, each masked to six bits |
| Words.DecodeIgnoresReservedBits | SerialDisk/server/server.c:813-816 | two byte pairs that agree in their low six bits decode to the same word |
| Words.DecodeWordOnto | SerialDisk/server/server.c:813-816 | a pair of 6-bit bytes decodes to w exactly when the first is w's low half and the second its high half |
| Words.WordBytesValue | SerialDisk/server/server.c:842-857 | send_word emits two 6-bit bytes, high half first, which together hold the word modulo 4096; swapping them gives what decode_word reads back |
| Words.WordBytesInjective | SerialDisk/server/server.c:842-857 | two words give the same byte pair exactly when they agree modulo 4096 |
| Repack.ToStore | SerialDisk/server/server.c:833-840 | pdp_to_djg on a byte sequence: each wire pair 00aaabbb 00cccddd becomes bbcccddd 0000aaab; ToStoreValue and StoreWireStore state what it means |
| Repack.ToWire | SerialDisk/server/server.c:824-831 | djg_to_pdp on a byte sequence: each stored pair becomes two 6-bit bytes, high half first; ToWireValue and WireStoreWire state what it means |
| Repack.StorePairValue | SerialDisk/server/server.c:837-838 | one stored pair holds the 12-bit wire word little-endian, with a high byte below 16 |
| Repack.WirePairValue | SerialDisk/server/server.c:828-829 | one wire pair holds the stored value's low 12 bits, high half first, both bytes below 64 |
| Repack.ToStoreValue | SerialDisk/server/server.c:833-840 | word i of the stored layout equals decode_word of the input at i, and its high byte is below 16 |
| Repack.ToWireValue | SerialDisk/server/server.c:824-831 | word i of the wire layout is in[2i] + 256*(in[2i+1] & 017), split into two bytes below 64 |
| Repack.WireStoreWire | SerialDisk/server/server.c:824-840 | converting wire data to the stored layout and back gives each pair byte-swapped and masked to six bits |
| Repack.StorePairRoundTrip | SerialDisk/server/server.c:824-840 | a stored pair whose high byte is below 16 survives conversion to the wire and back |
| Repack.StoreWireStore | SerialDisk/server/server.c:824-840 | a well-formed stored image, sent to the PDP-8 and received back as the PDP-8 sends words (low half first), is stored unchanged |
| Repack.ConversionPrefix | SerialDisk/server/server.c:824-840 | both conversions read only the first 2*word_count bytes of their input |
| Repack.PdpToDjg | SerialDisk/server/server.c:833-840 | the output's first 2*word_count bytes become the stored layout of the input and the rest of the output is untouched |
| Repack.DjgToPdp | SerialDisk/server/server.c:824-831 | the output's first 2*word_count bytes become the wire layout of the input and the rest of the output is untouched |
| Transfer.DecodeRequest | SerialDisk/server/server.c:470-538 | the request initialize_xfr decodes from the command byte and the parameter words, in OS/8 or DIAL format |
| Transfer.Resolve | SerialDisk/server/server.c:470-597 | every global initialize_xfr leaves, the words it sends and its return value, as one value; InitializeXfr is proved to produce it |
| Transfer.Failures | SerialDisk/server/server.c:479-583 | the failed checks of initialize_xfr in the order the code runs them |
| Transfer.UnitSideOffset | SerialDisk/server/server.c:470-477 | command 'A'..'H' selects disk (c-'A')/2 below 4; A/C/E/G mean side 0 and B/D/F/H side 1; the block offset is 06260*side, plus (w & 07)*0400 in DIAL mode |
| Transfer.Os8FunctionWord | SerialDisk/server/server.c:515-525 | in OS/8 mode the page count is bits 03700 of the function word with 0 meaning 040, so it is 1..32; field is bits 070; the CDF is 06201 plus 8*field; the buffer address and start block are words 1 and 2 |
| Transfer.ZeroPagesMeansThirtyTwo | SerialDisk/server/server.c:518-520 | an OS/8 page count of 0 moves 32 pages: 4096 words, 8192 bytes, word count 0, no half block |
| Transfer.DialFunctionWords | SerialDisk/server/server.c:526-538 | in DIAL mode the buffer address is (w2 & 017)*0400, the field is w2 >> 4, the page count is twice the fourth word with no substitution of 0, and no CDF is computed |
| Transfer.DirectionFromFunctionWord | SerialDisk/server/server.c:500-513 | when the disk is in use the direction is WRITE exactly when bit 04000 is set; when it is not in use the previous direction stays; an accepted request acknowledges with 04001 for a write and 04000 for a read |
| Transfer.AcknowledgmentNamesLastFailure | SerialDisk/server/server.c:479-583 | the request fails exactly when some check fails, and the acknowledgment is NACK plus the code of the last failing check, not an OR of the codes |
| Transfer.BoundaryCheck | SerialDisk/server/server.c:555-583 | a request on a disk in use that passes the protection, block-range and resident-page checks is accepted; one that ends past block 06260 fails with NACK\|2, or NACK\|4 when it also overlaps the resident page |
| Transfer.TransferSizes | SerialDisk/server/server.c:585-595 | the word count sent is the 12-bit negation of num_pages*0200; total_num_words = num_pages*0200 and num_bytes is twice that; half_block holds exactly for a write of an odd number of pages |
| Transfer.RequestBounds | SerialDisk/server/server.c:516-538 | the start block is a 12-bit word and the block offset, page count and byte count are never negative |
| Transfer.CommittedWholeBlocks | SerialDisk/server/server.c:672-677 | with the half-block page added, a write always commits a whole number of 512-byte blocks |
| Transfer.Os8TransferFitsBuffer | SerialDisk/server/server.c:162-178 | in OS/8 mode a transfer plus its padding fits in the 8192-byte data part of disk_buf |
| Transfer.DialTransferOverflows | SerialDisk/server/server.c:537 | a DIAL block count above 16 asks for more bytes than disk_buf holds |
| Transfer.ScenarioReadOnePage | SerialDisk/server/server.c:439-598 | an OS/8 read of one page from block 0 of drive A sends CDF 06201, count 07600 and acknowledgment 04000, and moves 256 bytes |
| Transfer.ScenarioMissingUnit | SerialDisk/server/server.c:479-485 | a command for drive 3 while that drive is not in use is refused with a plain NACK |
| Transfer.PadAsWritten | SerialDisk/server/server.c:672-675 | the zero fill as written: bytes from num_bytes up to 0400 are cleared |
| Transfer.CommittedAsWritten | SerialDisk/server/server.c:672-692 | the bytes process_write commits: the data, and on a half block one more page; once the data is a page or more, that page is the buffer's earlier contents |
| Transfer.PadHalfBlock | SerialDisk/server/server.c:672-677 | the corrected zero fill (see Findings): the page after the data is cleared |
| Transfer.PadAsWrittenDoesNothing | SerialDisk/server/server.c:672-675 | the zero fill as written touches nothing once num_bytes is at least 0400 |
| Transfer.PadAsWrittenLeavesStaleData | SerialDisk/server/server.c:672-677 | a one-page write over a buffer of ones leaves ones in the padding page that is committed |
| Transfer.PadHalfBlockCommitted | SerialDisk/server/server.c:672-677 | the corrected fill keeps the data, zeroes exactly the page after it, and leaves the rest of the buffer alone |
| HelpLoader.HelpByte | SerialDisk/server/server.c:752-756 | the HELP byte of one word and its link bit; HelpByteFields and HelpWordRoundTrip state what it holds |
| HelpLoader.HelpPhase | SerialDisk/server/server.c:738-760 | the bytes of the HELP phase: none when the first word has bit 04 set, otherwise one byte per word up to the first unloadable word |
| HelpLoader.FirstUnloadable | SerialDisk/server/server.c:742-751 | the first table word with a bit of 0740 set, or the table length; every word before it is loadable |
| HelpLoader.HelpByteFields | SerialDisk/server/server.c:752-756 | the byte sent for a word is (w & 037) << 3, plus w >> 10, plus 04 when the next word has its link bit 01000 set |
| HelpLoader.HelpWordRoundTrip | SerialDisk/server/server.c:752-756 | a loadable word's bits 037 and 03000 can be read back from its byte, and bit 04 of the byte is the link bit of the next word |
| HelpLoader.HelpRoundTrip | SerialDisk/server/server.c:742-760 | a table of loadable words whose first link bit is clear is recovered exactly by the HELP decoder from the bytes sent for it |
| HelpLoader.Boot2Accepted | SerialDisk/server/server.c:701-760 | the built-in BOOT2 is not refused: all 26 words are sent, one byte each, and decode back to the table |
| HelpLoader.TableAccepted | SerialDisk/server/server.c:738-760 | a table whose words are all loadable and whose first word has bit 04 clear is sent whole, one byte per word |
| HelpLoader.Boot2Loadable | SerialDisk/server/server.c:701-713 | every BOOT2 word has bits 0740 clear |
| HelpLoader.FirstUnloadableAll | SerialDisk/server/server.c:742-751 | when every word is loadable the HELP phase runs to the end of the table |
| HelpLoader.WordsBytesPairs | SerialDisk/server/server.c:761-767 | word i of BOOT3 goes out as bytes 2i and 2i+1, w >> 6 then w & 077 |
| HelpLoader.WordsBytesLength | SerialDisk/server/server.c:761-767 | the BOOT3 phase sends two bytes per word |
| HelpLoader.Patch | SerialDisk/server/server.c:776-800 | three consecutive words of a block overwritten by six patch bytes |
| HelpLoader.Chunks | SerialDisk/server/server.c:776-801 | the three byte ranges HELPBoot sends from the patched block 0 |
| HelpLoader.ChunkContents | SerialDisk/server/server.c:776-801 | the three block-0 chunks are words 044..0177 with the first patch over 044..046, words 0175..0377 with the second over 0175..0177, and the third patch alone at words 0..2 |
| Server.PullKeepsStream | SerialDisk/server/server.c:876-889 | a blocking read loses and reorders no client byte, and it stops short only when the client has nothing more to send |
| Server.GateThree | SerialDisk/server/server.c:785-801 | three gated writes: the second is offered only when the link took the first whole, and the third only when it also took the second whole |
| Server.Fetched | SerialDisk/server/server.c:891-907 | the bytes fread returns from an image: at most len, fewer at its end |
| Server.Overwrite | SerialDisk/server/server.c:909-928 | an image after fwrite at an offset; OverwriteSpec states what it means |
| Server.OverwriteSpec | SerialDisk/server/server.c:909-928 | an empty write leaves the image as it was; otherwise the data lands at the offset, every other byte is kept, and any gap past the old end is zero-filled |
| Server.CopyIn | SerialDisk/server/server.c:876-907 | data lands at the front of the buffer and the rest of the buffer is untouched |
| Server.ZeroFillAsWritten | SerialDisk/server/server.c:672-675 | the loop of process_write as written: the buffer becomes PadAsWritten of its old contents, so nothing changes once num_bytes reaches 0400 |
| Server.ZeroFillHalfBlock | SerialDisk/server/server.c:672-677 | the corrected fill of the Finding below (not what the loop does): the buffer becomes PadHalfBlock of its old contents |
| Server.PatchWords | SerialDisk/server/server.c:776-800 | the buffer becomes its old contents with three words replaced by the patch bytes |
| Server.PatchPrefix | SerialDisk/server/server.c:776-800 | a patch inside the first block can be applied to that block alone |
| Server.DiskServer.constructor | SerialDisk/server/server.c:162-178 | a server on the configured disks, images and link, with nothing received or sent yet and all of the client's bursts still to come; like the zeroed C globals, direction starts as READ, the transfer variables at 0 and the three buffers all zeros |
| Server.DiskServer.Transmit | SerialDisk/server/server.c:859-874 | everything passed is logged as offered, and the result is true exactly when the link takes all of it after what was offered before |
| Server.DiskServer.SendWord | SerialDisk/server/server.c:842-857 | the word's two 6-bit bytes are sent high half first, through the front of buf |
| Server.DiskServer.Receive | SerialDisk/server/server.c:876-889 | the next n client bytes are put at the front of the buffer and removed from the line; a read that cannot complete leaves the buffer alone and the client silent |
| Server.DiskServer.Drain | SerialDisk/server/server.c:629-639 | every byte already arrived, up to the size of buf, is taken from the line into buf |
| Server.DiskServer.ReadFromFile | SerialDisk/server/server.c:891-907 | disk_buf gets the image bytes from the offset, up to its end; short means fewer than asked |
| Server.DiskServer.WriteToFile | SerialDisk/server/server.c:909-928 | the image of the unit is overwritten at the offset with the first len bytes of converted_disk_buf |
| Server.DiskServer.SelectDisk | SerialDisk/server/server.c:470-485 | the disk and side come from the command; an unavailable disk sets a plain NACK and retval -1 |
| Server.DiskServer.DecodeParameters | SerialDisk/server/server.c:489-538 | the request fields are decoded from the received words for the mode in use, and direction and acknowledgment are set only while no failure is recorded |
| Server.DiskServer.ValidateRequest | SerialDisk/server/server.c:555-583 | the four checks run in order; each failure overwrites the acknowledgment with its own code and sets retval to -1 |
| Server.DiskServer.AnnounceTransfer | SerialDisk/server/server.c:585-595 | the CDF and negative word count are sent, and the sizes and half-block flag are set |
| Server.DiskServer.ResolveParameters | SerialDisk/server/server.c:489-597 | after the parameters are received, every transfer variable and the bytes sent equal the specification Resolve |
| Server.DiskServer.InitializeXfr | SerialDisk/server/server.c:439-598 | six parameter bytes, or eight in DIAL mode, are consumed whether or not the disk is available; retval, the transfer variables and the two words sent are those Resolve gives for them |
| Server.DiskServer.DrainStray | SerialDisk/server/server.c:660-670 | any byte arrived after the data sets NACK\|8; otherwise the acknowledgment is kept |
| Server.DiskServer.PadHalfBlockWrite | SerialDisk/server/server.c:672-677 | the half-block step as written: disk_buf gets the as-written fill and total_num_words grows by 0200 |
| Server.DiskServer.SendBlocks | SerialDisk/server/server.c:624-627 | the requested blocks are read from the image at (start_block+block_offset)*01000 and sent in wire layout |
| Server.DiskServer.ProcessRead | SerialDisk/server/server.c:621-652 | the blocks go out in wire layout followed by DONE, or NACK\|8 when client bytes arrived meanwhile; a full read sends exactly the image bytes converted |
| Server.DiskServer.ProcessWrite | SerialDisk/server/server.c:654-695 | the server hangs unless num_bytes bytes arrive; then (WriteStored) the acknowledgment is DONE, or NACK\|8 when more bytes arrived, and goes out; without a NACK the committed bytes, in the file layout, replace the image at (start_block+block_offset)*01000, and with a NACK no image changes; the committed bytes are the data and, on a half block, one more page, which for every half block the code produces is what disk_buf held before, not zeros; one read of stray bytes is drained from the line, and disk_buf is left holding the data, then its old contents as the fill leaves them |
| Server.DiskServer.FinishWrite | SerialDisk/server/server.c:660-692 | after the data phase, for the bytes `arrived` on the line and the `stale` buffer contents after the data: the effects WriteStored states, including the line and the whole of disk_buf left for the next command, and (Padded) disk_buf then starts with CommittedAsWritten of the buffer |
| Server.DiskServer.PrepareWrite | SerialDisk/server/server.c:660-677 | any stray byte sets NACK\|8; the fill as written then leaves CommittedAsWritten of the buffer in its first total_num_words words, which grew by a page on a half block |
| Server.DiskServer.AcknowledgeWrite | SerialDisk/server/server.c:679-694 | the acknowledgment goes out; without the NACK bit the first total_num_words words of disk_buf, in the file layout, replace the selected image at the transfer offset, and with it no image changes |
| Server.DiskServer.CommitWrite | SerialDisk/server/server.c:686-692 | the selected image is overwritten at the transfer offset with the stored layout of total_num_words words |
| Server.DiskServer.ProcessSendBootSector | SerialDisk/server/server.c:600-619 | block 0 of the first image goes out in wire layout, then the trailer 0200 only if the link took the whole block; nothing is sent for an image shorter than a block |
| Server.DiskServer.ReadBlock0 | SerialDisk/server/server.c:768-770 | block 0 of the first image is read and converted, or short when the image is shorter |
| Server.DiskServer.HelpBoot | SerialDisk/server/server.c:697-811 | boot2 is sent in HELP format, stopping at a refused word; then boot3 as word pairs; then the three patched block-0 chunks, each only if the link took the previous chunk whole |
| Server.DiskServer.SendBoot2 | SerialDisk/server/server.c:738-760 | nothing is sent when the first word has bit 04 set; otherwise one HELP byte per word up to the first unloadable word |
| Server.DiskServer.SendBoot3 | SerialDisk/server/server.c:761-767 | each boot3 word is sent as its two 6-bit bytes |
| Server.DiskServer.SendBlock0Chunks | SerialDisk/server/server.c:768-810 | the patched chunks of block 0 are sent, each only if the link took the previous chunk whole; nothing is sent for a short image |
| Server.DiskServer.SendChunks | SerialDisk/server/server.c:776-801 | the three chunks sent are those of the block's wire image, each only if the link took the previous chunk whole |
| Server.DiskServer.SendPatchedChunk | SerialDisk/server/server.c:776-785 | one patch is applied to the block and the given slice of the patched block is sent; the result says whether the link took the slice whole |
| Server.DiskServer.Respond | SerialDisk/server/server.c:388-401 | Responded: the acknowledgment is sent first; a refused request moves no data and leaves the line, the images and disk_buf as they were; an accepted request has the effects Executed states |
| Server.DiskServer.Execute | SerialDisk/server/server.c:396-400 | Executed: a write goes to process_write and a read to process_read; a transfer too large for disk_buf is Overflow, which sends and stores nothing; a read changes no image, leaves the burst list alone and ends as ReadDone states: disk_buf holds the image bytes fetched followed by its old tail, all of which is sent converted, then DONE, or NACK\|8 after stray input, of which one read is drained; a write touches only the selected image, hangs exactly when its data never arrives, and otherwise has the effects WriteStored states |
| Server.DiskServer.WriteTransfer | SerialDisk/server/server.c:396-397 | the write branch: Hung exactly when the data never arrives, with nothing sent or stored; otherwise the effects WriteStored states, on the selected image only |
| Server.DiskServer.ReadTransfer | SerialDisk/server/server.c:398-399 | the read branch, as ReadDone states: disk_buf holds the bytes fetched, then its old tail on a short read; the whole buffer converted and DONE, or NACK\|8 after stray input, follow what was sent before; one read of stray bytes is drained from the line; a full read sends exactly the image bytes converted |
| Server.DiskServer.RunTransfer | SerialDisk/server/server.c:359-402 | TransferEffect: the server hangs unless the parameter bytes arrive; then the CDF, count and acknowledgment Resolve computes for them go out, and the request's direction is left for the next command; a refused request moves no data and leaves the rest of the line and disk_buf as they were; an accepted read ends as ReadDone states, short read included; an accepted write hangs exactly when its data never arrives and otherwise sends its acknowledgment and stores what WriteStored states, which also gives the line and disk_buf it leaves; no protected image changes |
| Server.DiskServer.HandleCommand | SerialDisk/server/server.c:350-410 | the server hangs with nothing sent when no command byte arrives; otherwise the byte read is the command, and CommandEffect for it, starting from the rest of the line, gives what is sent, the images, and the line and direction left for the next command; a completed command always consumes client bytes |
| Server.DiskServer.Dispatch | SerialDisk/server/server.c:351-410 | CommandEffect: NUL sends the HELP phase, BOOT3 and the gated block-0 chunks; '@' sends the boot sector; 'A'..'H' have the effects TransferEffect states; ''Q' quits without sending; any other byte is ignored; only a transfer changes an image, takes bytes from the line or changes the direction; 'Q' and an ignored byte also leave disk_buf as it was |
| Server.DiskServer.CommandLoop | SerialDisk/server/server.c:346-412 | the loop ends only by quitting, hanging on a read or a DIAL overflow; no image of an unused or write-protected disk ever changes |

Some functions and predicates have no row because they only name a quantity or an effect that the contracts above use. These are `Server.Pull`, `Server.Concat`, `Server.Gate`, `Server.Block0Wire`, `Server.DiskServer.Pending`, `Server.DiskServer.Pulled`, `Server.DiskServer.WriteStored`, `Server.DiskServer.Padded`, `Server.DiskServer.ReadDone`, `Server.DiskServer.Executed`, `Server.DiskServer.Responded`, `Server.DiskServer.TransferEffect`, `Server.DiskServer.CommandEffect`, `HelpLoader.HelpDecode` and `HelpLoader.WordsBytes`. Each is stated where it is defined, and the rows that use it name it:

- `Pull` is stated by `PullKeepsStream`.
- `Gate` is stated by `GateThree`.
- `HelpDecode` is stated by `HelpRoundTrip`.
- `WordsBytes` is stated by `WordsBytesPairs` and `WordsBytesLength`.
- `WriteStored` and `Padded` are the effects named in the rows for `ProcessWrite` and `FinishWrite`.
- `ReadDone` is the effect named in the row for `ReadTransfer`.
- `Executed` and `Responded` are the effects named in the rows for `Execute` and `Respond`.
- `TransferEffect` and `CommandEffect` are the effects named in the rows for `RunTransfer` and `Dispatch`.

## Left out

- `main`, argument parsing, the configuration file and serial-port setup: the configuration is not part of this model. The server is built from the resulting disk table and images. The requirement that disk 0 be in use is a precondition of the constructor.
- The serial and file primitives (`ser_read`, `ser_write`, `fread`, `fwrite`, `fseek`) are abstract. A system-call failure makes the server exit, and that path is not modelled.
- The result of `write_to_file` is ignored by the server, so the model treats every write as complete.
- `int_handler` and the machine shutdown in `cleanup_and_exit` are not modelled. `Q` ends the model with outcome `Quit`.
- All logging is left out. That includes the out-of-range `disk_num_strings[selected_disk - 1]` in the unavailable-disk message, which only affects what is printed.
- The device-code warnings for bits 07 of the OS/8 function word only print a message, so they are left out.
- DIAL mode never assigns `cdf_instr` before sending it. The model sends an arbitrary value, named by the ghost result `cdfSent`.
- A DIAL transfer of more than 16 blocks writes past the end of `disk_buf`. The model does not describe what such a transfer does; the command ends with outcome `Overflow` and nothing more is sent.
- When the disk is unavailable, `direction` keeps its previous value, and the protection checks use that stale value. The model follows the code here.
- The block-range check ignores `block_offset`, so a DIAL sub-disk offset can reach past the selected side. The model follows the code here.
- Server.DiskServer.Dispatch: after NUL or '@', what `disk_buf` holds for the next command is not stated (the boot commands put BOOT3 words and block 0 there); the contracts of the boot commands cover what is sent. A later short read or half-block write that sends or commits those stale bytes is therefore not fully determined by the contracts after a boot command. The same holds for `CommandEffect` and `HandleCommand`. The contents of `buf` and `converted_disk_buf` after any command are not stated either.
- Server.DiskServer.Execute: after an `Overflow` outcome only what was sent and the images are stated (nothing more is sent, nothing is stored), not the line or `disk_buf`, because the C code has undefined behaviour there and the model stops; the same holds for `Respond`, `RunTransfer`, `Dispatch` and `HandleCommand`.
- Reads and writes run as helper methods that follow the sections of the C functions (`SelectDisk`, `DecodeParameters`, `ValidateRequest`, `AnnounceTransfer`, `SendBlocks`, `FinishWrite`, `PrepareWrite`, `AcknowledgeWrite`, `WriteTransfer`, `ReadTransfer`, `SendBoot2` and others). They have no separate C counterparts.
- `buf`, `disk_buf` and `converted_disk_buf` are `unsigned char` arrays, but `decode_word`, `djg_to_pdp` and `pdp_to_djg` read them through `char *` parameters. The model uses unsigned bytes throughout. Every shift in those functions is masked, so they give the same results whether `char` is signed or not.
- Server.DiskServer.HelpBoot: takes its two tables as parameters, so that the refusal branches can be reached; `Dispatch` passes the built-in tables.

## Findings

| source | as written | input that shows it | evidently intended | confidence | as-written member | corrected member |
|---|---|---|---|---|---|---|
| SerialDisk/server/server.c:672-677 | the half-block zero fill runs from num_bytes up to 0400, which is empty whenever num_bytes is at least 0400, i.e. for every half-block write; total_num_words still grows by a page, so the page after the data is committed with whatever disk_buf held before | a one-page write (num_bytes 0400) after a transfer that left nonzero bytes in disk_buf[0400..01000] | zero the page from num_bytes to num_bytes+0400 before committing it | not executed | Transfer.PadAsWrittenLeavesStaleData | Transfer.PadHalfBlockCommitted |

The server model follows the code as written: `ProcessWrite` commits the stale page, through `ZeroFillAsWritten` and `CommittedAsWritten`. The corrected fill is given separately, as `PadHalfBlock`, `ZeroFillHalfBlock` and `PadHalfBlockCommitted`, for the repair the row describes.
