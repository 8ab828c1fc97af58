/** The transfer parameter resolver (initialize_xfr) as a function of what it
    reads: the command letter, the parameter bytes the client sends after it,
    the disk table, the addressing mode and the direction left over from the
    previous command. The server class runs the same steps on its globals and
    is proved to agree with `Resolve`. */
module Transfer {
  import opened Words

  datatype Direction = Read | Write

  /** One entry of the server's disk table; fixed after startup. */
  datatype DiskState = DiskState(inUse: bool, readProtect: bool, writeProtect: bool)

  datatype Option<T> = None | Some(value: T)

  /** The reasons a transfer is refused, in the order they are checked. */
  datatype Failure = Unavailable | Protected | PastBoundary | ResidentPage

  const DISK_COUNT: nat := 4
  /** The top page of field 0 holds the OS/8 resident (07600). */
  const RESIDENT_PAGE: nat := 3968
  /** Opcode part of the CDF instruction sent in OS/8 mode (06201). */
  const CDF_BASE: nat := 3201
  const CMD_A: nat := 65
  const CMD_H: nat := 72

  predicate IsTransferCommand(c: Byte)
  {
    CMD_A <= c as int <= CMD_H
  }

  /** Parameter bytes after the command: three words in OS/8 mode, four in DIAL mode. */
  function ParamBytes(dial: bool): (r: nat)
  {
    if dial then 8 else 6
  }

  /** The disk a command letter selects: A and B the first, ..., G and H the fourth. */
  function Unit(c: Byte): (r: nat)
    requires IsTransferCommand(c)
  {
    (c as int - CMD_A) / 2
  }

  /** The side a command letter selects, `~c & 1`. */
  function Side(c: Byte): (r: nat)
  {
    1 - (c as int) % 2
  }

  /** The request as decoded from the parameter words, before validation. */
  datatype Request = Request(
    functionWord: Word,  // first parameter word
    numPages: int,       // pages of 0200 words to move
    field: int,          // memory field of the client buffer
    bufferAddr: int,     // address of the client buffer within its field
    startBlock: int,     // first block, relative to blockOffset
    blockOffset: int,    // blocks before the selected side (and DIAL sub-disk)
    cdf: Option<Word>)   // CDF instruction; None in DIAL mode, where it is never set

  function DecodeRequest(c: Byte, p: seq<Byte>, dial: bool): (r: Request)
    requires IsTransferCommand(c) && |p| == ParamBytes(dial)
  {
    var w := DecodeWord(p, 0);
    var sideOffset := NUMBER_OF_BLOCKS * Side(c);
    if !dial then
      var pages := (w / 64) % 32;            // (w & 03700) >> 6
      var field := (w / 8) % 8;              // (w & 070) >> 3
      Request(w, if pages == 0 then 32 else pages, field,
              DecodeWord(p, 1), DecodeWord(p, 2), sideOffset,
              Some(CDF_BASE + field * 8))    // 06201 | (w & 070)
    else
      var w2 := DecodeWord(p, 1);
      Request(w, DecodeWord(p, 3) * 2, w2 / 16, (w2 % 16) * BLOCK_SIZE,
              DecodeWord(p, 2), sideOffset + (w % 8) * DIAL_SUB_DISK_BLK_COUNT, None)
  }

  /** Bit 04000 of the function word asks for a write. */
  function RequestedDirection(w: Word): (r: Direction)
  {
    if w >= 2048 then Write else Read
  }

  predicate ProtectionViolated(d: DiskState, dir: Direction)
  {
    (dir == Write && d.writeProtect) || (dir == Read && d.readProtect)
  }

  /** Blocks touched, `num_pages / 2 + (num_pages & 1)`, beyond the side. */
  predicate BoundaryExceeded(r: Request)
  {
    r.numPages / 2 + r.numPages % 2 + r.startBlock > NUMBER_OF_BLOCKS as int
  }

  /** OS/8 mode only: a field-0 transfer that reaches the resident page. */
  predicate ResidentOverlap(r: Request, dial: bool)
  {
    r.field == 0 && r.bufferAddr + r.numPages * PAGE_SIZE > RESIDENT_PAGE as int && !dial
  }

  /** Everything initialize_xfr leaves behind. */
  datatype Xfr = Xfr(
    req: Request,
    direction: Direction,
    acknowledgment: int,
    failed: bool,          // retval == -1
    totalNumWords: int,
    numBytes: int,
    halfBlock: bool,
    wordCount: int)        // the negative word count sent to the client

  function Resolve(c: Byte, p: seq<Byte>, disks: seq<DiskState>, dial: bool, prev: Direction): (r: Xfr)
    requires IsTransferCommand(c) && |p| == ParamBytes(dial) && |disks| == DISK_COUNT
  {
    var req := DecodeRequest(c, p, dial);
    var disk := disks[Unit(c)];
    // direction is only assigned when the disk is available
    var dir := if disk.inUse then RequestedDirection(req.functionWord) else prev;
    var ack0 := if !disk.inUse then NACK as int else if dir == Write then ACK_WRITE as int else ACK_READ as int;
    var ack1 := if ProtectionViolated(disk, dir) then NACK + 16 else ack0;
    var ack2 := if BoundaryExceeded(req) then NACK + 2 else ack1;
    var ack3 := if ResidentOverlap(req, dial) then NACK + 4 else ack2;
    var words := req.numPages * PAGE_SIZE;
    Xfr(req, dir, ack3,
        !disk.inUse || ProtectionViolated(disk, dir) || BoundaryExceeded(req) || ResidentOverlap(req, dial),
        words, words * BYTES_PER_WORD,
        dir == Write && req.numPages % 2 == 1,
        (-words) % 4096)
  }

  // ---------------------------------------------------------------------
  // An independent statement of the validation: the list of failed checks

  function Failures(c: Byte, p: seq<Byte>, disks: seq<DiskState>, dial: bool, prev: Direction): (r: seq<Failure>)
    requires IsTransferCommand(c) && |p| == ParamBytes(dial) && |disks| == DISK_COUNT
  {
    var x := Resolve(c, p, disks, dial, prev);
    var disk := disks[Unit(c)];
    (if disk.inUse then [] else [Unavailable]) +
    (if ProtectionViolated(disk, x.direction) then [Protected] else []) +
    (if BoundaryExceeded(x.req) then [PastBoundary] else []) +
    (if ResidentOverlap(x.req, dial) then [ResidentPage] else [])
  }

  /** The bits a failure adds to NACK. */
  function ReasonBits(f: Failure): (r: nat)
  {
    match f
    case Unavailable => 0
    case Protected => 16
    case PastBoundary => 2
    case ResidentPage => 4
  }

  // ---------------------------------------------------------------------
  // Properties of the resolver

  /** Letters A..H select disks 0..3; A, C, E, G side 0 and B, D, F, H side 1;
      the block offset is 06260 blocks per side, plus 0400 blocks per DIAL
      sub-disk. */
  lemma UnitSideOffset(c: Byte, p: seq<Byte>, dial: bool)
    requires IsTransferCommand(c) && |p| == ParamBytes(dial)
    ensures Unit(c) < DISK_COUNT && Unit(c) == (c as int - CMD_A) / 2
    ensures Side(c) == 0 <==> c as int in {65, 67, 69, 71}
    ensures Side(c) == 1 <==> c as int in {66, 68, 70, 72}
    ensures DecodeRequest(c, p, dial).blockOffset
            == NUMBER_OF_BLOCKS * Side(c) + (if dial then (DecodeWord(p, 0) % 8) * 256 else 0)
  {
  }

  /** OS/8 mode: the page count is bits 6..10 of the function word with 0 read
      as 040, so it is always 1..32; the field is bits 3..5 and the CDF
      instruction is 06201 with those bits. */
  lemma Os8FunctionWord(c: Byte, p: seq<Byte>)
    requires IsTransferCommand(c) && |p| == 6
    ensures var r := DecodeRequest(c, p, false);
      var w := DecodeWord(p, 0);
      && 1 <= r.numPages <= 32
      && (r.numPages == 32 <==> (w / 64) % 32 == 0)
      && (r.numPages < 32 ==> r.numPages == (w / 64) % 32)
      && 0 <= r.field < 8 && r.field == (w / 8) % 8
      && r.cdf == Some(CDF_BASE + 8 * r.field)
      && r.bufferAddr == DecodeWord(p, 1) && r.startBlock == DecodeWord(p, 2)
  {
  }

  /** A page count field of 0 asks for exactly what 040 pages would: the
      decoded request is that of the same function word with 040 in it, were
      040 representable in the five bits. */
  lemma ZeroPagesMeansThirtyTwo(c: Byte, p: seq<Byte>, disks: seq<DiskState>, prev: Direction)
    requires IsTransferCommand(c) && |p| == 6 && |disks| == DISK_COUNT
    requires (DecodeWord(p, 0) / 64) % 32 == 0
    ensures var x := Resolve(c, p, disks, false, prev);
      x.req.numPages == 32 && x.totalNumWords == 4096 && x.numBytes == 8192
      && x.wordCount == 0 && !x.halfBlock
  {
  }

  /** DIAL mode: the buffer is a 0400-word slot given by the low four bits of
      the second word, the field its remaining bits, and the page count is
      twice the block count with no zero substitution; no CDF is computed. */
  lemma DialFunctionWords(c: Byte, p: seq<Byte>)
    requires IsTransferCommand(c) && |p| == 8
    ensures var r := DecodeRequest(c, p, true);
      && r.bufferAddr == (DecodeWord(p, 1) % 16) * 256 && r.bufferAddr % 256 == 0
      && r.field == DecodeWord(p, 1) / 16 && r.field < 256
      && r.numPages == 2 * DecodeWord(p, 3) && r.numPages % 2 == 0
      && r.startBlock == DecodeWord(p, 2)
      && r.cdf == None
  {
  }

  /** Direction and acknowledgment follow bit 04000 when the disk is in use;
      otherwise the direction is the stale one and the acknowledgment NACK. */
  lemma DirectionFromFunctionWord(c: Byte, p: seq<Byte>, disks: seq<DiskState>, dial: bool, prev: Direction)
    requires IsTransferCommand(c) && |p| == ParamBytes(dial) && |disks| == DISK_COUNT
    ensures var x := Resolve(c, p, disks, dial, prev);
      && (disks[Unit(c)].inUse ==> (x.direction == Write <==> DecodeWord(p, 0) >= 2048))
      && (!disks[Unit(c)].inUse ==> x.direction == prev)
      && (!x.failed ==> x.acknowledgment == (if x.direction == Write then ACK_WRITE else ACK_READ))
  {
  }

  /** retval is -1 exactly when some check fails, and the acknowledgment is then
      NACK with the bits of the LAST failed check only: codes are assigned,
      not or-ed together. */
  lemma {:induction false} AcknowledgmentNamesLastFailure(c: Byte, p: seq<Byte>, disks: seq<DiskState>, dial: bool, prev: Direction)
    requires IsTransferCommand(c) && |p| == ParamBytes(dial) && |disks| == DISK_COUNT
    ensures var x := Resolve(c, p, disks, dial, prev);
      var fs := Failures(c, p, disks, dial, prev);
      && (x.failed <==> |fs| > 0)
      && (|fs| > 0 ==> x.acknowledgment == NACK + ReasonBits(fs[|fs| - 1]))
  {
    var x := Resolve(c, p, disks, dial, prev);
    var fs := Failures(c, p, disks, dial, prev);
    var disk := disks[Unit(c)];
    if ResidentOverlap(x.req, dial) {
      assert fs[|fs| - 1] == ResidentPage;
    } else if BoundaryExceeded(x.req) {
      assert fs[|fs| - 1] == PastBoundary;
    } else if ProtectionViolated(disk, x.direction) {
      assert fs[|fs| - 1] == Protected;
    } else if !disk.inUse {
      assert fs == [Unavailable];
    } else {
      assert fs == [];
    }
  }

  /** A request inside the side, on an available disk that allows the
      direction, and (OS/8) clear of the resident page, is accepted; one that
      runs past the side is refused, with NACK|2 unless the resident-page check
      that follows overrides it with NACK|4. */
  lemma BoundaryCheck(c: Byte, p: seq<Byte>, disks: seq<DiskState>, dial: bool, prev: Direction)
    requires IsTransferCommand(c) && |p| == ParamBytes(dial) && |disks| == DISK_COUNT
    ensures var x := Resolve(c, p, disks, dial, prev);
      && ((disks[Unit(c)].inUse && !ProtectionViolated(disks[Unit(c)], x.direction)
           && (x.req.numPages + 1) / 2 + x.req.startBlock <= NUMBER_OF_BLOCKS as int
           && !ResidentOverlap(x.req, dial)) ==> !x.failed)
      && ((x.req.numPages + 1) / 2 + x.req.startBlock > NUMBER_OF_BLOCKS as int ==>
            x.failed && x.acknowledgment == (if ResidentOverlap(x.req, dial) then NACK + 4 else NACK + 2))
  {
    var x := Resolve(c, p, disks, dial, prev);
    assert x.req.numPages >= 0;
    assert x.req.numPages / 2 + x.req.numPages % 2 == (x.req.numPages + 1) / 2;
  }

  /** The word count sent is the 12-bit two's complement of the transfer's word
      count; the byte count is two per word; half_block is set exactly for a
      write of an odd number of pages. */
  lemma TransferSizes(c: Byte, p: seq<Byte>, disks: seq<DiskState>, dial: bool, prev: Direction)
    requires IsTransferCommand(c) && |p| == ParamBytes(dial) && |disks| == DISK_COUNT
    ensures var x := Resolve(c, p, disks, dial, prev);
      && 0 <= x.wordCount < 4096 && (x.wordCount + x.totalNumWords) % 4096 == 0
      && x.totalNumWords == x.req.numPages * PAGE_SIZE
      && x.numBytes == 2 * x.totalNumWords
      && (x.halfBlock <==> x.direction == Write && x.req.numPages % 2 == 1)
  {
    var x := Resolve(c, p, disks, dial, prev);
    NegatedCount(x.totalNumWords);
  }

  /** The 12-bit negative of a count, added to the count, wraps to zero. */
  lemma NegatedCount(w: int)
    ensures 0 <= (-w) % 4096 < 4096 && ((-w) % 4096 + w) % 4096 == 0
  {
    var q, r := (-w) / 4096, (-w) % 4096;
    assert r + w == 4096 * (-q);
    assert (4096 * (-q)) % 4096 == 0;
  }

  /** The block numbers and the page count a request resolves to are never
      negative, and the start block is a 12-bit word. */
  lemma RequestBounds(c: Byte, p: seq<Byte>, disks: seq<DiskState>, dial: bool, prev: Direction)
    requires IsTransferCommand(c) && |p| == ParamBytes(dial) && |disks| == DISK_COUNT
    ensures var x := Resolve(c, p, disks, dial, prev);
      && 0 <= x.req.startBlock < 4096 && x.req.blockOffset >= 0
      && x.req.numPages >= 0 && x.numBytes >= 0
  {
  }

  /** The length a write commits: the received bytes plus, for a half block, one
      further page. It is always a whole number of blocks. */
  lemma {:induction false} CommittedWholeBlocks(c: Byte, p: seq<Byte>, disks: seq<DiskState>, dial: bool, prev: Direction)
    requires IsTransferCommand(c) && |p| == ParamBytes(dial) && |disks| == DISK_COUNT
    requires Resolve(c, p, disks, dial, prev).direction == Write
    ensures var x := Resolve(c, p, disks, dial, prev);
      (x.numBytes + (if x.halfBlock then PAGE_SIZE * BYTES_PER_WORD else 0)) % (BLOCK_SIZE * BYTES_PER_WORD) == 0
  {
    var x := Resolve(c, p, disks, dial, prev);
    var n := x.req.numPages;
    var h := n / 2;
    assert n == 2 * h + n % 2;
    assert x.numBytes == 256 * n;
    if n % 2 == 1 {
      assert x.numBytes + 256 == 512 * (h + 1);
      assert (512 * (h + 1)) % 512 == 0;
    } else {
      assert x.numBytes == 512 * h;
      assert (512 * h) % 512 == 0;
    }
  }

  /** OS/8 transfers always fit the 8200-byte disk buffer, half-block padding
      included; DIAL transfers need not. */
  lemma Os8TransferFitsBuffer(c: Byte, p: seq<Byte>, disks: seq<DiskState>, prev: Direction)
    requires IsTransferCommand(c) && |p| == 6 && |disks| == DISK_COUNT
    ensures var x := Resolve(c, p, disks, false, prev);
      x.numBytes + (if x.halfBlock then 256 else 0) <= 8192
  {
    Os8FunctionWord(c, p);
  }

  /** A request on a DIAL unit for more than 16 blocks does not fit the disk buffer. */
  lemma DialTransferOverflows(c: Byte, p: seq<Byte>, disks: seq<DiskState>, prev: Direction)
    requires IsTransferCommand(c) && |p| == 8 && |disks| == DISK_COUNT
    requires DecodeWord(p, 3) > 16
    ensures Resolve(c, p, disks, true, prev).numBytes > 8200
  {
  }

  // ---------------------------------------------------------------------
  // Scenarios

  /** Read one page into field 0 at 0200 from block 0 of side 0 of the first
      disk: accepted, CDF 06201, word count 07600, acknowledgment 04000. */
  lemma ScenarioReadOnePage(disks: seq<DiskState>)
    requires |disks| == DISK_COUNT && disks[0] == DiskState(true, false, false)
    ensures var p: seq<Byte> := [0, 1, 0, 2, 0, 0];   // words 0100, 0200, 0
      var x := Resolve(65, p, disks, false, Read);
      && !x.failed && x.direction == Read
      && x.req.cdf == Some(3201) && x.wordCount == 3968 && x.acknowledgment == 2048
      && x.numBytes == 256 && x.req.startBlock == 0 && x.req.blockOffset == 0
  {
    var p: seq<Byte> := [0, 1, 0, 2, 0, 0];
    assert DecodeWord(p, 0) == 64 && DecodeWord(p, 1) == 128 && DecodeWord(p, 2) == 0;
  }

  /** The same request on the fourth disk when it is not configured: refused
      with plain NACK (02000). */
  lemma ScenarioMissingUnit(disks: seq<DiskState>)
    requires |disks| == DISK_COUNT && disks[3] == DiskState(false, false, false)
    ensures var p: seq<Byte> := [0, 1, 0, 2, 0, 0];
      var x := Resolve(71, p, disks, false, Read);
      x.failed && x.acknowledgment == 1024 && Unit(71) == 3
  {
    var p: seq<Byte> := [0, 1, 0, 2, 0, 0];
    assert DecodeWord(p, 0) == 64 && DecodeWord(p, 1) == 128 && DecodeWord(p, 2) == 0;
  }

  // ---------------------------------------------------------------------
  // Half-block padding

  /** The padding process_write applies AS WRITTEN: bytes from `numBytes` up to
      0400 (one page of bytes) are cleared. */
  function PadAsWritten(b: seq<Byte>, numBytes: nat): (r: seq<Byte>)
  {
    seq(|b|, j requires 0 <= j < |b| => if numBytes <= j < PAGE_SIZE * BYTES_PER_WORD then 0 else b[j])
  }

  /** The bytes process_write commits, as written: the received data and, on
      a half block, the page after it as the padding loop leaves it, which is
      the buffer's earlier contents whenever the data is a page or more. */
  function CommittedAsWritten(b: seq<Byte>, numBytes: nat, halfBlock: bool): (r: seq<Byte>)
    requires numBytes + (if halfBlock then PAGE_SIZE * BYTES_PER_WORD else 0) <= |b|
    ensures |r| == numBytes + (if halfBlock then PAGE_SIZE * BYTES_PER_WORD else 0)
    ensures r[..numBytes] == b[..numBytes]
    ensures halfBlock && numBytes >= PAGE_SIZE * BYTES_PER_WORD ==>
      r == b[..numBytes + PAGE_SIZE * BYTES_PER_WORD]
  {
    if halfBlock then PadAsWritten(b, numBytes)[..numBytes + PAGE_SIZE * BYTES_PER_WORD] else b[..numBytes]
  }

  /** The padding the half-block write needs: the page of bytes that follows
      the received data is cleared. */
  function PadHalfBlock(b: seq<Byte>, numBytes: nat): (r: seq<Byte>)
  {
    seq(|b|, j requires 0 <= j < |b| => if numBytes <= j < numBytes + PAGE_SIZE * BYTES_PER_WORD then 0 else b[j])
  }

  /** As written, the padding loop never runs for a transfer of at least one
      page, so the extra page committed with a half block is whatever the
      buffer held before. */
  lemma PadAsWrittenDoesNothing(b: seq<Byte>, numBytes: nat)
    requires numBytes >= PAGE_SIZE * BYTES_PER_WORD
    ensures PadAsWritten(b, numBytes) == b
  {
  }

  /** A one-page write after a transfer that left non-zero bytes in the buffer
      commits those stale bytes as the second page of the block. */
  lemma PadAsWrittenLeavesStaleData()
    ensures var b := seq(512, j => 1 as Byte);
      PadAsWritten(b, 256)[256..512] != seq(256, j => 0 as Byte)
  {
    var b := seq(512, j => 1 as Byte);
    assert PadAsWritten(b, 256)[256] == 1;
    assert PadAsWritten(b, 256)[256..512][0] == 1;
  }

  /** The corrected padding: the committed bytes are the received data followed
      by one page of zeros, and the rest of the buffer is left alone. */
  lemma PadHalfBlockCommitted(b: seq<Byte>, numBytes: nat)
    requires numBytes + PAGE_SIZE * BYTES_PER_WORD <= |b|
    ensures var r := PadHalfBlock(b, numBytes);
      && |r| == |b|
      && r[..numBytes] == b[..numBytes]
      && r[numBytes..numBytes + 256] == seq(256, j => 0 as Byte)
      && r[numBytes + 256..] == b[numBytes + 256..]
  {
    var r := PadHalfBlock(b, numBytes);
    assert r[numBytes..numBytes + 256] == seq(256, j => 0 as Byte);
  }
}
