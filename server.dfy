/** The protocol engine of the disk server: its global state as the fields of
    one object, the serial line and the disk images it talks to, and the
    operations of the command loop.

    The collaborators are abstract:
    - the serial line holds the bytes that have arrived (`rx`) and the bursts
      the client sends later (`bursts`); a blocking read pulls in bursts until
      it has enough, the non-blocking drain sees only what has arrived. A
      blocking read that can never complete leaves the server waiting for
      good; the model then stops (outcome Hung).
    - every byte the server hands to the line is logged in `sent`; how many
      bytes of one write the line takes is given by `link`, a function of
      everything offered before that write, so each write can fall short
      (`transmit_buf` returning 1) independently of the others.
    - each disk image is a byte sequence read and written at byte offsets. */
module Server {
  import opened Words
  import opened Repack
  import opened Transfer
  import opened HelpLoader

  const BUF_SIZE: nat := 256
  const DISK_BUF_SIZE: nat := 8200
  /** One block in bytes (BLOCK_SIZE * BYTES_PER_WORD). */
  const BLOCK_BYTES: nat := 512
  /** Byte sent after block 0 by the boot-sector command (0200). */
  const TRAILER: Byte := 128
  const CMD_HELP_BOOT: Byte := 0
  const CMD_BOOT_SECTOR: Byte := 64   // '@'
  const CMD_QUIT: Byte := 81          // 'Q'

  /** How a command (or the command loop) ends. */
  datatype Outcome =
    | Continue   // back to waiting for a command
    | Hung       // blocked for good on a read the client never completes
    | Quit       // 'Q': files closed, process exits
    | Overflow   // a transfer larger than the disk buffer (DIAL mode only)

  function Min(a: int, b: int): (r: int)
  {
    if a <= b then a else b
  }

  function Zeros(n: nat): (z: seq<Byte>)
  {
    seq(n, j => 0)
  }

  // ---------------------------------------------------------------------
  // The serial line

  function Concat(bs: seq<seq<Byte>>): (r: seq<Byte>)
  {
    if bs == [] then [] else bs[0] + Concat(bs[1..])
  }

  /** The arrived bytes and remaining bursts once a blocking read of n bytes
      has pulled in bursts until n bytes are there or none are left. */
  function Pull(rx: seq<Byte>, bursts: seq<seq<Byte>>, n: nat): (r: (seq<Byte>, seq<seq<Byte>>))
    decreases |bursts|
  {
    if |rx| >= n || bursts == [] then (rx, bursts) else Pull(rx + bursts[0], bursts[1..], n)
  }

  /** Pulling loses and reorders nothing, and stops with n bytes or no bursts left. */
  lemma {:induction false} PullKeepsStream(rx: seq<Byte>, bursts: seq<seq<Byte>>, n: nat)
    ensures Pull(rx, bursts, n).0 + Concat(Pull(rx, bursts, n).1) == rx + Concat(bursts)
    ensures |Pull(rx, bursts, n).0| >= n || Pull(rx, bursts, n).1 == []
    decreases |bursts|
  {
    if |rx| < n && bursts != [] {
      PullKeepsStream(rx + bursts[0], bursts[1..], n);
      assert rx + bursts[0] + Concat(bursts[1..]) == rx + Concat(bursts);
    }
  }

  /** The bytes offered by a sequence of writes, each made only if the line
      took the whole of the write before it; the first one is always made.
      `link(h)` is how many bytes the line takes of a write made after `h`
      has been offered. */
  function Gate(base: seq<Byte>, chunks: seq<seq<Byte>>, link: seq<Byte> -> nat): (r: seq<Byte>)
    decreases |chunks|
  {
    if chunks == [] then base
    else
      var b := base + chunks[0];
      if |chunks| > 1 && |chunks[0]| <= link(base) then Gate(b, chunks[1..], link) else b
  }

  /** Three gated writes: each chunk is offered only while the write before it
      was taken whole. */
  lemma GateThree(base: seq<Byte>, a: seq<Byte>, b: seq<Byte>, c: seq<Byte>, link: seq<Byte> -> nat)
    ensures Gate(base, [a, b, c], link) ==
      if |a| > link(base) then base + a
      else if |b| > link(base + a) then base + a + b
      else base + a + b + c
  {
    assert [a, b, c][1..] == [b, c];
    assert [b, c][1..] == [c];
    assert Gate(base + a + b, [c], link) == base + a + b + c;
    assert Gate(base + a, [b, c], link) ==
      if |b| <= link(base + a) then Gate(base + a + b, [c], link) else base + a + b;
  }

  // ---------------------------------------------------------------------
  // The disk images

  /** The bytes a read of `len` bytes at `offset` gets from an image: those
      that lie before its end. */
  function Fetched(img: seq<Byte>, offset: nat, len: nat): (r: seq<Byte>)
    ensures |r| <= len
  {
    if offset < |img| then img[offset..offset + Min(len, |img| - offset)] else []
  }

  /** An image after `data` is written at `offset`; writing past the end fills
      the gap with zeros, and writing nothing leaves the image as it is. */
  function Overwrite(img: seq<Byte>, offset: nat, data: seq<Byte>): (r: seq<Byte>)
  {
    if data == [] then img
    else
      var base := if offset <= |img| then img else img + Zeros(offset - |img|);
      base[..offset] + data + (if offset + |data| < |base| then base[offset + |data|..] else [])
  }

  /** The write puts `data` at `offset`, keeps every other byte of the image,
      and grows the image only as far as the data reaches; an empty write does
      not grow it at all. */
  lemma OverwriteSpec(img: seq<Byte>, offset: nat, data: seq<Byte>)
    ensures data == [] ==> Overwrite(img, offset, data) == img
    ensures data != [] ==> var r := Overwrite(img, offset, data);
      && |r| == (if offset + |data| <= |img| then |img| else offset + |data|)
      && r[offset..offset + |data|] == data
      && (forall j :: 0 <= j < |r| && !(offset <= j < offset + |data|) ==>
            r[j] == if j < |img| then img[j] else 0)
  {
    if data == [] { return; }
    var r := Overwrite(img, offset, data);
    var base := if offset <= |img| then img else img + Zeros(offset - |img|);
    assert forall j :: 0 <= j < |base| ==> base[j] == if j < |img| then img[j] else 0;
    assert r[offset..offset + |data|] == data;
  }

  /** Copies `data` to the front of `dst`. */
  method CopyIn(dst: array<Byte>, data: seq<Byte>)
    requires |data| <= dst.Length
    modifies dst
    ensures dst[..] == data + old(dst[|data|..])
  {
    var i := 0;
    while i < |data|
      invariant 0 <= i <= |data|
      invariant dst[..i] == data[..i]
      invariant dst[i..] == old(dst[i..])
    {
      dst[i] := data[i];
      i := i + 1;
      assert dst[..i] == dst[..i - 1] + [data[i - 1]];
    }
  }

  /** Half-block padding: clears the page of bytes after the first numBytes. */
  method ZeroFillHalfBlock(a: array<Byte>, numBytes: nat)
    requires numBytes + PAGE_SIZE * BYTES_PER_WORD <= a.Length
    modifies a
    ensures a[..] == PadHalfBlock(old(a[..]), numBytes)
  {
    var j := numBytes;
    while j < numBytes + PAGE_SIZE * BYTES_PER_WORD
      invariant numBytes <= j <= numBytes + PAGE_SIZE * BYTES_PER_WORD
      invariant forall k :: 0 <= k < a.Length ==>
        a[k] == if numBytes <= k < j then 0 else old(a[k])
    {
      a[j] := 0;
      j := j + 1;
    }
  }

  /** The zero fill of process_write as written: the bytes from numBytes up to
      0400 are cleared, which is none at all once numBytes reaches 0400. */
  method ZeroFillAsWritten(a: array<Byte>, numBytes: nat)
    requires PAGE_SIZE * BYTES_PER_WORD <= a.Length
    modifies a
    ensures a[..] == PadAsWritten(old(a[..]), numBytes)
  {
    var j := numBytes;
    while j < PAGE_SIZE * BYTES_PER_WORD
      invariant numBytes <= j && (j == numBytes || j <= PAGE_SIZE * BYTES_PER_WORD)
      invariant forall k :: 0 <= k < a.Length ==>
        a[k] == if numBytes <= k < j then 0 else old(a[k])
    {
      a[j] := 0;
      j := j + 1;
    }
  }

  /** Writes the six bytes of `p` over words `word`..`word + 2` of `a`. */
  method PatchWords(a: array<Byte>, word: nat, p: seq<Byte>)
    requires |p| == 6 && 2 * word + 6 <= a.Length
    modifies a
    ensures a[..] == Patch(old(a[..]), word, p)
  {
    a[2 * word + 0] := p[0];
    a[2 * word + 1] := p[1];
    a[2 * word + 2] := p[2];
    a[2 * word + 3] := p[3];
    a[2 * word + 4] := p[4];
    a[2 * word + 5] := p[5];
  }

  /** Patching commutes with taking a prefix that holds the patched words. */
  lemma PatchPrefix(b: seq<Byte>, word: nat, p: seq<Byte>, n: nat)
    requires |p| == 6 && 2 * word + 6 <= n <= |b|
    ensures Patch(b, word, p)[..n] == Patch(b[..n], word, p)
  {
    assert b[..n][..2 * word] == b[..2 * word];
    assert b[..n][2 * word + 6..] == b[2 * word + 6..n];
  }

  /** Block 0 of an image as the client receives it. */
  function Block0Wire(img: seq<Byte>): (w: seq<Byte>)
    requires |img| >= BLOCK_BYTES
    ensures |w| == BLOCK_BYTES
  {
    ToWire(img[..BLOCK_BYTES], BLOCK_SIZE)
  }

  /** A disk whose image a write command may change. */
  predicate Writable(d: DiskState)
  {
    d.inUse && !d.writeProtect
  }

  /** Every image of a disk that is not writable is as it was. */
  predicate ProtectedUnchanged(disks: seq<DiskState>, before: seq<seq<Byte>>, after: seq<seq<Byte>>)
  {
    |before| == |after| &&
    forall u :: 0 <= u < |disks| && u < |before| && !Writable(disks[u]) ==> after[u] == before[u]
  }

  // ---------------------------------------------------------------------
  // The server

  /** The server's globals. The disk table and the addressing mode are fixed
      after startup; the transfer variables are set by InitializeXfr and read
      by the executors. */
  class DiskServer {
    const dialMode: bool
    const disks: seq<DiskState>
    var images: seq<seq<Byte>>
    var rx: seq<Byte>
    var bursts: seq<seq<Byte>>
    var sent: seq<Byte>
    /** How many bytes ser_write takes of a write made once the given bytes
        have been offered before it. */
    const link: seq<Byte> -> nat

    const buf: array<Byte>
    const diskBuf: array<Byte>
    const convertedDiskBuf: array<Byte>

    var direction: Direction
    var startBlock: int
    var totalNumWords: int
    var acknowledgment: int
    var numBytes: int
    var halfBlock: bool
    var blockOffset: int
    /** The disk the last transfer command selected. */
    var selected: nat

    ghost predicate Valid()
      reads this
    {
      && |disks| == DISK_COUNT && disks[0].inUse
      && |images| == DISK_COUNT
      && buf.Length == BUF_SIZE && diskBuf.Length == DISK_BUF_SIZE
      && convertedDiskBuf.Length == DISK_BUF_SIZE
      && buf != diskBuf && buf != convertedDiskBuf && diskBuf != convertedDiskBuf
      && selected < DISK_COUNT
    }

    /** Bytes the client has yet to deliver, arrived or not. */
    ghost function Pending(): (r: nat)
      reads this`rx, this`bursts
    {
      |rx| + |Concat(bursts)|
    }

    /** The line after a blocking read of n bytes has pulled in what it needs. */
    ghost function Pulled(n: nat): (r: (seq<Byte>, seq<seq<Byte>>))
      reads this`rx, this`bursts
    {
      Pull(rx, bursts, n)
    }

    /** A server on the configured disks, before the first command; disk 1
        (the system disk) is required. Like the C globals, every transfer
        variable and buffer starts at zero, so the first direction is READ. */
    constructor (dialMode: bool, disks: seq<DiskState>, images: seq<seq<Byte>>,
                 input: seq<seq<Byte>>, link: seq<Byte> -> nat)
      requires |disks| == DISK_COUNT && disks[0].inUse && |images| == DISK_COUNT
      ensures Valid()
      ensures this.dialMode == dialMode && this.disks == disks && this.images == images
      ensures rx == [] && bursts == input && sent == [] && this.link == link
      ensures direction == Read && startBlock == 0 && totalNumWords == 0 && acknowledgment == 0
      ensures numBytes == 0 && halfBlock == false && blockOffset == 0 && selected == 0
      ensures buf[..] == Zeros(BUF_SIZE) && diskBuf[..] == Zeros(DISK_BUF_SIZE)
      ensures convertedDiskBuf[..] == Zeros(DISK_BUF_SIZE)
    {
      this.dialMode := dialMode;
      this.disks := disks;
      this.images := images;
      rx, bursts, sent := [], input, [];
      this.link := link;
      buf := new Byte[BUF_SIZE](i => 0);
      diskBuf := new Byte[DISK_BUF_SIZE](i => 0);
      convertedDiskBuf := new Byte[DISK_BUF_SIZE](i => 0);
      direction, startBlock, totalNumWords, acknowledgment := Read, 0, 0, 0;
      numBytes, halfBlock, blockOffset, selected := 0, false, 0, 0;
    }

    // -------------------------------------------------------------------
    // The serial line

    /** transmit_buf: offers `data` to the line; ok when the line took all of it. */
    method Transmit(data: seq<Byte>) returns (ok: bool)
      requires Valid()
      modifies this`sent
      ensures Valid()
      ensures sent == old(sent) + data
      ensures ok == (|data| <= link(old(sent)))
    {
      var taken := Min(|data|, link(sent));
      sent := sent + data;
      ok := taken == |data|;
    }

    /** send_word: the word as two 6-bit bytes, high half first, through `buf`;
        a short write is only reported. */
    method SendWord(word: int)
      requires Valid()
      modifies this`sent, buf
      ensures Valid()
      ensures sent == old(sent) + WordBytes(word)
      ensures buf[..] == WordBytes(word) + old(buf[2..])
    {
      buf[0] := (word / 64) % 64;
      buf[1] := word % 64;
      assert buf[..2] == WordBytes(word);
      var ok := Transmit(buf[..2]);
    }

    /** receive_buf: blocks until n bytes have arrived and puts them at the
        front of `dst`. When the client has nothing more to send, the read
        never completes (ok false). */
    method Receive(dst: array<Byte>, n: nat) returns (ok: bool)
      requires Valid() && (dst == buf || dst == diskBuf) && n <= dst.Length
      modifies this`rx, this`bursts, dst
      ensures Valid()
      ensures ok == (n <= |old(Pulled(n)).0|)
      ensures ok ==> && dst[..] == old(Pulled(n)).0[..n] + old(dst[n..])
                     && rx == old(Pulled(n)).0[n..] && bursts == old(Pulled(n)).1
      ensures !ok ==> dst[..] == old(dst[..]) && bursts == []
      ensures Pending() == old(Pending()) - (if ok then n else 0)
    {
      PullKeepsStream(rx, bursts, n);
      while |rx| < n && bursts != []
        invariant Pull(rx, bursts, n) == old(Pulled(n))
        invariant rx + Concat(bursts) == old(rx + Concat(bursts))
        invariant dst[..] == old(dst[..])
        decreases |bursts|
      {
        assert rx + bursts[0] + Concat(bursts[1..]) == rx + Concat(bursts);
        rx, bursts := rx + bursts[0], bursts[1..];
      }
      ok := n <= |rx|;
      if ok {
        CopyIn(dst, rx[..n]);
        rx := rx[n..];
      }
    }

    /** The non-blocking ser_read into `buf` that follows a transfer: takes
        whatever has arrived, up to the size of `buf`. */
    method Drain() returns (c: nat)
      requires Valid()
      modifies this`rx, buf
      ensures Valid()
      ensures c == Min(|old(rx)|, BUF_SIZE) && rx == old(rx)[c..]
      ensures buf[..] == old(rx)[..c] + old(buf[c..])
      ensures Pending() == old(Pending()) - c
    {
      c := Min(|rx|, BUF_SIZE);
      CopyIn(buf, rx[..c]);
      rx := rx[c..];
    }

    // -------------------------------------------------------------------
    // The disk images

    /** read_from_file into `diskBuf`; short when the image ends before `len`
        bytes. */
    method ReadFromFile(unit: nat, offset: nat, len: nat) returns (short: bool)
      requires Valid() && unit < DISK_COUNT && len <= DISK_BUF_SIZE
      modifies diskBuf
      ensures var data := Fetched(images[unit], offset, len);
        && diskBuf[..] == data + old(diskBuf[|data|..])
        && short == (|data| < len)
    {
      var data := Fetched(images[unit], offset, len);
      CopyIn(diskBuf, data);
      short := |data| < len;
    }

    /** write_to_file of the first `len` bytes of `convertedDiskBuf`. */
    method WriteToFile(unit: nat, offset: nat, len: nat)
      requires Valid() && unit < DISK_COUNT && len <= DISK_BUF_SIZE
      modifies this`images
      ensures Valid()
      ensures images == old(images)[unit := Overwrite(old(images)[unit], offset, convertedDiskBuf[..len])]
    {
      images := images[unit := Overwrite(images[unit], offset, convertedDiskBuf[..len])];
    }

    // -------------------------------------------------------------------
    // The transfer commands

    /** The parameter words of initialize_xfr as they arrive in `buf`: the
        direction and acknowledgment it sets (only while the request is still
        accepted), and the mode-specific request fields. */
    method DecodeParameters(c: Byte, retval: int) returns (numPages: int, field: int, bufferAddr: int, cdf: int)
      requires Valid() && IsTransferCommand(c)
      requires blockOffset == NUMBER_OF_BLOCKS * Side(c)
      modifies this`direction, this`acknowledgment, this`startBlock, this`blockOffset
      ensures Valid()
      ensures var req := DecodeRequest(c, buf[..ParamBytes(dialMode)], dialMode);
        && numPages == req.numPages && field == req.field && bufferAddr == req.bufferAddr
        && startBlock == req.startBlock && blockOffset == req.blockOffset
        && (req.cdf.Some? ==> cdf == req.cdf.value)
        && direction == (if retval == 0 then RequestedDirection(req.functionWord) else old(direction))
        && acknowledgment == (if retval != 0 then old(acknowledgment)
                              else if direction == Write then ACK_WRITE as int else ACK_READ as int)
    {
      var current := DecodeWord(buf[..], 0);
      if retval == 0 {
        if current >= 2048 {             // current & 04000
          direction := Write;
          acknowledgment := ACK_WRITE;
        } else {
          direction := Read;
          acknowledgment := ACK_READ;
        }
      }
      if !dialMode {
        numPages := (current / 64) % 32;   // (current & 03700) >> 6
        if numPages == 0 {
          numPages := 32;
        }
        cdf := CDF_BASE + ((current / 8) % 8) * 8;
        field := (current / 8) % 8;
        bufferAddr := DecodeWord(buf[..], 1);
        startBlock := DecodeWord(buf[..], 2);
      } else {
        blockOffset := blockOffset + (current % 8) * DIAL_SUB_DISK_BLK_COUNT;
        current := DecodeWord(buf[..], 1);
        bufferAddr := (current % 16) * BLOCK_SIZE;
        field := current / 16;             // (current & ~017) >> 4
        startBlock := DecodeWord(buf[..], 2);
        numPages := DecodeWord(buf[..], 3) * 2;
        cdf :| true;                       // never assigned in DIAL mode
      }
    }

    /** The four checks of initialize_xfr, in the source's order; each failure
        overwrites the acknowledgment with its own NACK code. */
    method ValidateRequest(req: Request, retval: int) returns (r: int)
      requires Valid()
      modifies this`acknowledgment
      ensures Valid()
      ensures var d := disks[selected];
        var ack1 := if ProtectionViolated(d, direction) then NACK as int + 16 else old(acknowledgment);
        var ack2 := if BoundaryExceeded(req) then NACK as int + 2 else ack1;
        && acknowledgment == (if ResidentOverlap(req, dialMode) then NACK as int + 4 else ack2)
        && r == (if ProtectionViolated(d, direction) || BoundaryExceeded(req)
                    || ResidentOverlap(req, dialMode) then -1 else retval)
    {
      r := retval;
      if direction == Write && disks[selected].writeProtect {
        acknowledgment := NACK + 16;
        r := -1;
      }
      if direction == Read && disks[selected].readProtect {
        acknowledgment := NACK + 16;
        r := -1;
      }
      if req.numPages / 2 + req.numPages % 2 + req.startBlock > NUMBER_OF_BLOCKS {
        acknowledgment := NACK + 2;
        r := -1;
      }
      if req.field == 0 && req.bufferAddr + req.numPages * PAGE_SIZE > RESIDENT_PAGE && !dialMode {
        acknowledgment := NACK + 4;
        r := -1;
      }
    }

    /** The first step of initialize_xfr: the disk and side from the command
        letter; a disk not in use is refused with NACK before the parameters
        are read. */
    method SelectDisk(c: Byte) returns (retval: int)
      requires Valid() && IsTransferCommand(c)
      modifies this`selected, this`blockOffset, this`acknowledgment
      ensures Valid()
      ensures selected == Unit(c) && blockOffset == NUMBER_OF_BLOCKS * Side(c)
      ensures retval == (if disks[Unit(c)].inUse then 0 else -1)
      ensures acknowledgment == (if disks[Unit(c)].inUse then old(acknowledgment) else NACK as int)
    {
      selected := (c as int - 'A' as int) / 2;
      blockOffset := NUMBER_OF_BLOCKS * (1 - (c as int) % 2);   // side is ~c & 1
      retval := 0;
      if !disks[selected].inUse {
        acknowledgment := NACK;
        retval := -1;
      }
    }

    /** The last step of initialize_xfr: the CDF instruction and the 12-bit
        negative word count go to the client, and the transfer size is set;
        only a write of an odd number of pages is a half block. */
    method AnnounceTransfer(cdf: int, numPages: int)
      requires Valid()
      modifies this`sent, buf, this`totalNumWords, this`numBytes, this`halfBlock
      ensures Valid()
      ensures sent == old(sent) + WordBytes(cdf) + WordBytes((-(numPages * PAGE_SIZE)) % 4096)
      ensures totalNumWords == numPages * PAGE_SIZE && numBytes == 2 * totalNumWords
      ensures halfBlock == (direction == Write && numPages % 2 == 1)
    {
      SendWord(cdf);
      SendWord((-(numPages * PAGE_SIZE)) % 4096);   // & 07777
      totalNumWords := numPages * PAGE_SIZE;
      numBytes := totalNumWords * BYTES_PER_WORD;
      if direction == Write {
        halfBlock := numPages % 2 == 1;
      } else {
        halfBlock := false;
      }
    }

    /** The part of initialize_xfr that follows the parameter words: decode,
        validate, announce. With the disk already selected for `c`, it leaves
        the transfer variables as `Resolve` computes them from the parameter
        bytes in `buf`. */
    method ResolveParameters(c: Byte, retval0: int) returns (retval: int, ghost cdfSent: int)
      requires Valid() && IsTransferCommand(c)
      requires selected == Unit(c) && blockOffset == NUMBER_OF_BLOCKS * Side(c)
      requires retval0 == (if disks[Unit(c)].inUse then 0 else -1)
      requires !disks[Unit(c)].inUse ==> acknowledgment == NACK as int
      modifies this`acknowledgment, this`direction, this`startBlock, this`blockOffset,
               this`totalNumWords, this`numBytes, this`halfBlock, this`sent, buf
      ensures Valid()
      ensures var x := Resolve(c, old(buf[..ParamBytes(dialMode)]), disks, dialMode, old(direction));
        && retval == (if x.failed then -1 else 0)
        && direction == x.direction && acknowledgment == x.acknowledgment
        && startBlock == x.req.startBlock && blockOffset == x.req.blockOffset
        && totalNumWords == x.totalNumWords && numBytes == x.numBytes
        && halfBlock == x.halfBlock
        && sent == old(sent) + WordBytes(cdfSent) + WordBytes(x.wordCount)
        && (x.req.cdf.Some? ==> cdfSent == x.req.cdf.value)
    {
      ghost var params := buf[..ParamBytes(dialMode)];
      var numPages, field, bufferAddr, cdf := DecodeParameters(c, retval0);
      var req := Request(DecodeWord(buf[..], 0), numPages, field, bufferAddr, startBlock, blockOffset,
                         if dialMode then None else Some(cdf));
      assert req == DecodeRequest(c, params, dialMode);
      retval := ValidateRequest(req, retval0);
      cdfSent := cdf;
      AnnounceTransfer(cdf, numPages);
      assert Resolve(c, params, disks, dialMode, old(direction))
        == Xfr(req, direction, acknowledgment, retval == -1, totalNumWords, numBytes, halfBlock,
               (-(numPages * PAGE_SIZE)) % 4096);
    }

    /** initialize_xfr for the command letter in buf[0]: reads the parameter
        words, validates the request, sends the CDF instruction and the
        negative word count, and leaves the transfer variables as `Resolve`
        computes them. `params` names the parameter bytes received and
        `cdfSent` the CDF word sent (in DIAL mode an indeterminate value). */
    method InitializeXfr() returns (retval: int, received: bool, ghost params: seq<Byte>, ghost cdfSent: int)
      requires Valid() && IsTransferCommand(buf[0])
      modifies this`selected, this`blockOffset, this`acknowledgment, this`direction,
               this`startBlock, this`totalNumWords, this`numBytes, this`halfBlock,
               this`rx, this`bursts, this`sent, buf
      ensures Valid()
      ensures received == (ParamBytes(dialMode) <= |old(Pulled(ParamBytes(dialMode))).0|)
      ensures !received ==> sent == old(sent) && bursts == []
      ensures received ==>
        && params == old(Pulled(ParamBytes(dialMode))).0[..ParamBytes(dialMode)]
        && rx == old(Pulled(ParamBytes(dialMode))).0[ParamBytes(dialMode)..]
        && bursts == old(Pulled(ParamBytes(dialMode))).1
      ensures received ==>
        var x := Resolve(old(buf[0]), params, disks, dialMode, old(direction));
        && retval == (if x.failed then -1 else 0)
        && selected == Unit(old(buf[0]))
        && direction == x.direction && acknowledgment == x.acknowledgment
        && startBlock == x.req.startBlock && blockOffset == x.req.blockOffset
        && totalNumWords == x.totalNumWords && numBytes == x.numBytes
        && halfBlock == x.halfBlock
        && sent == old(sent) + WordBytes(cdfSent) + WordBytes(x.wordCount)
        && (x.req.cdf.Some? ==> cdfSent == x.req.cdf.value)
      ensures Pending() <= old(Pending())
    {
      var c := buf[0];
      retval := SelectDisk(c);
      var k := if dialMode then 8 else 6;
      received := Receive(buf, k);
      if !received {
        params, cdfSent := [], 0;
        return;
      }
      params := buf[..k];
      retval, cdfSent := ResolveParameters(c, retval);
    }

    /** The non-blocking read that ends a transfer: any byte the client sent
        meanwhile is drained and turns the acknowledgment into NACK|8. */
    method DrainStray()
      requires Valid()
      modifies this`rx, buf, this`acknowledgment
      ensures Valid()
      ensures acknowledgment == (if old(rx) == [] then old(acknowledgment) else NACK as int + 8)
      ensures rx == old(rx)[Min(|old(rx)|, BUF_SIZE)..]
      ensures Pending() <= old(Pending())
    {
      var c := Drain();
      if c != 0 {
        acknowledgment := NACK + 8;
      }
    }

    /** The half-block step of process_write as written: the zero fill of the
        bytes from numBytes up to 0400, then one more page counted in the
        transfer. */
    method PadHalfBlockWrite()
      requires Valid() && 0 <= numBytes
      modifies diskBuf, this`totalNumWords
      ensures Valid()
      ensures totalNumWords == old(totalNumWords) + PAGE_SIZE
      ensures diskBuf[..] == PadAsWritten(old(diskBuf[..]), numBytes)
    {
      ZeroFillAsWritten(diskBuf, numBytes);
      totalNumWords := totalNumWords + PAGE_SIZE;
    }

    /** The end of an accepted read of `words` words at byte `at` of the image
        `img`, from the line `rx0`, the log `sent0` and the disk buffer
        `diskBuf0`: the buffer holds the bytes fetched, then its old tail
        (a short read leaves that tail); all of it is sent converted, then
        DONE, or NACK|8 when bytes had arrived, which one read drains from the
        line. */
    ghost predicate ReadDone(rx0: seq<Byte>, sent0: seq<Byte>, diskBuf0: seq<Byte>, img: seq<Byte>, at: nat, words: nat)
      requires 2 * words <= |diskBuf0| == diskBuf.Length
      reads this`acknowledgment, this`rx, this`sent, diskBuf
    {
      var data := Fetched(img, at, 2 * words);
      && acknowledgment == (if rx0 == [] then ACK_DONE as int else NACK as int + 8)
      && rx == rx0[Min(|rx0|, BUF_SIZE)..]
      && diskBuf[..] == data + diskBuf0[|data|..]
      && sent == sent0 + ToWire(data + diskBuf0[|data|..], words) + WordBytes(acknowledgment)
      && |sent| == |sent0| + 2 * words + 2
      && (|data| == 2 * words ==> sent == sent0 + ToWire(data, words) + WordBytes(acknowledgment))
    }

    /** process_read: reads the requested blocks of the selected image into
        `diskBuf`, sends them converted to the wire layout, then sends DONE, or
        NACK|8 when bytes arrived from the client meanwhile (which are drained). */
    method ProcessRead()
      requires Valid() && 0 <= numBytes == 2 * totalNumWords && numBytes <= DISK_BUF_SIZE
      requires startBlock >= 0 && blockOffset >= 0
      modifies this`acknowledgment, this`rx, this`sent, buf, diskBuf, convertedDiskBuf
      ensures Valid()
      ensures var data := Fetched(images[selected], (startBlock + blockOffset) * BLOCK_BYTES, numBytes);
        && diskBuf[..] == data + old(diskBuf[|data|..])
        && convertedDiskBuf[..] == ToWire(diskBuf[..], totalNumWords) + old(convertedDiskBuf[numBytes..])
        && sent == old(sent) + ToWire(diskBuf[..], totalNumWords) + WordBytes(acknowledgment)
        && (|data| == numBytes ==>
              sent == old(sent) + ToWire(data, totalNumWords) + WordBytes(acknowledgment))
      ensures acknowledgment == (if old(rx) == [] then ACK_DONE as int else NACK as int + 8)
      ensures rx == old(rx)[Min(|old(rx)|, BUF_SIZE)..]
      ensures Pending() <= old(Pending())
    {
      acknowledgment := ACK_DONE;
      SendBlocks();
      DrainStray();
      SendWord(acknowledgment);
    }

    /** The data phase of process_read: the blocks as read from the image
        (a short read leaves the rest of `diskBuf` as it was), converted and
        sent whole; a short write is only reported. */
    method SendBlocks()
      requires Valid() && 0 <= numBytes == 2 * totalNumWords && numBytes <= DISK_BUF_SIZE
      requires startBlock >= 0 && blockOffset >= 0
      modifies this`sent, diskBuf, convertedDiskBuf
      ensures Valid()
      ensures var data := Fetched(images[selected], (startBlock + blockOffset) * BLOCK_BYTES, numBytes);
        && diskBuf[..] == data + old(diskBuf[|data|..])
        && convertedDiskBuf[..] == ToWire(diskBuf[..], totalNumWords) + old(convertedDiskBuf[numBytes..])
        && sent == old(sent) + ToWire(diskBuf[..], totalNumWords)
        && (|data| == numBytes ==> ToWire(diskBuf[..], totalNumWords) == ToWire(data, totalNumWords))
    {
      var short := ReadFromFile(selected, (startBlock + blockOffset) * BLOCK_BYTES, numBytes);
      DjgToPdp(diskBuf, convertedDiskBuf, totalNumWords);
      ConversionPrefix(diskBuf[..], totalNumWords, numBytes);
      var ok := Transmit(convertedDiskBuf[..numBytes]);
    }

    /** The end of an accepted write of `n` bytes whose data arrived: `arrived`
        is what the line held once the data was in, `stale` what the disk
        buffer held past the first `n` bytes, `sent0` the log and `images0` the
        images before the write. The acknowledgment is DONE, or NACK|8 when
        more bytes than the data had arrived; it goes out; unless it is a NACK,
        the bytes CommittedAsWritten gives, repacked for the image, are stored
        at byte `at` of image `unit`. The line keeps what arrived after the
        data beyond the one drained read, and the disk buffer holds the data,
        then `stale` as the half-block fill leaves it, for the next command. */
    ghost predicate WriteStored(arrived: seq<Byte>, stale: seq<Byte>, sent0: seq<Byte>, images0: seq<seq<Byte>>,
                                unit: nat, at: nat, n: nat, half: bool)
      requires n <= |arrived| && (if half then PAGE_SIZE * BYTES_PER_WORD else 0) <= |stale|
      requires unit < |images0|
      reads this`acknowledgment, this`sent, this`images, this`rx, diskBuf
    {
      var rest := arrived[n..];
      var committed := CommittedAsWritten(arrived[..n] + stale, n, half);
      && rx == rest[Min(|rest|, BUF_SIZE)..]
      && diskBuf[..] == (if half then PadAsWritten(arrived[..n] + stale, n) else arrived[..n] + stale)
      && acknowledgment == (if rest == [] then ACK_DONE as int else NACK as int + 8)
      && sent == sent0 + WordBytes(acknowledgment)
      && images == (if rest != [] then images0
                    else images0[unit := Overwrite(images0[unit], at,
                                                   ToStore(committed, n / 2 + (if half then PAGE_SIZE else 0)))])
    }

    /** The buffer once process_write's padding has run on the data `data`
        followed by `stale`, with `words0` the word count requested: the
        count grows by a page for a half block, and the first
        total_num_words words of `diskBuf` are what CommittedAsWritten
        gives, which start with the data and, on a half block of at least a
        page of data, go on with the first page of `stale`. */
    ghost predicate Padded(data: seq<Byte>, stale: seq<Byte>, words0: int)
      requires 0 <= |data| == numBytes && (if halfBlock then PAGE_SIZE * BYTES_PER_WORD else 0) <= |stale|
      reads this`numBytes, this`halfBlock, this`totalNumWords, diskBuf
    {
      var committed := CommittedAsWritten(data + stale, numBytes, halfBlock);
      && totalNumWords == words0 + (if halfBlock then PAGE_SIZE else 0)
      && |committed| == 2 * totalNumWords <= diskBuf.Length
      && diskBuf[..2 * totalNumWords] == committed
      && committed[..numBytes] == data
      && (halfBlock && numBytes >= PAGE_SIZE * BYTES_PER_WORD ==>
            committed == data + stale[..PAGE_SIZE * BYTES_PER_WORD])
    }

    /** process_write: receives the data, drains stray bytes (NACK|8), runs
        the half-block padding as written, sends the acknowledgment and, unless
        it is a NACK, stores the buffer repacked at the requested blocks of the
        selected image. On a half block the page committed after the data is
        what the buffer held before (see `Transfer.PadAsWritten`). */
    method ProcessWrite() returns (received: bool)
      requires Valid() && 0 <= numBytes == 2 * totalNumWords
      requires numBytes + (if halfBlock then PAGE_SIZE * BYTES_PER_WORD else 0) <= DISK_BUF_SIZE
      requires startBlock >= 0 && blockOffset >= 0
      modifies this`acknowledgment, this`totalNumWords, this`rx, this`bursts, this`sent,
               this`images, buf, diskBuf, convertedDiskBuf
      ensures Valid()
      ensures received == (numBytes <= |old(Pulled(numBytes)).0|)
      ensures !received ==> images == old(images) && sent == old(sent) && bursts == []
      ensures received ==>
        && bursts == old(Pulled(numBytes)).1
        && Padded(old(Pulled(numBytes)).0[..numBytes], old(diskBuf[numBytes..]), old(totalNumWords))
      ensures received ==>
        WriteStored(old(Pulled(numBytes)).0, old(diskBuf[numBytes..]), old(sent), old(images), selected,
                    (startBlock + blockOffset) * BLOCK_BYTES, numBytes, halfBlock)
      ensures Pending() <= old(Pending())
    {
      ghost var arrived, stale := Pulled(numBytes).0, diskBuf[numBytes..];
      ghost var sent0, images0 := sent, images;
      acknowledgment := ACK_DONE;
      received := Receive(diskBuf, numBytes);
      if received {
        assert sent == sent0 && images == images0;
        FinishWrite(arrived, stale);
      }
    }

    /** process_write once the data is in `diskBuf`: the stray-byte check,
        the half-block padding, the acknowledgment, and the commit unless the
        acknowledgment is a NACK. `arrived` is what the line held once the
        data was in, of which the first numBytes are the data now at the
        front of `diskBuf` and the rest is still on the line; `stale` is what
        `diskBuf` holds after the data. */
    method FinishWrite(ghost arrived: seq<Byte>, ghost stale: seq<Byte>)
      requires Valid() && 0 <= numBytes == 2 * totalNumWords && acknowledgment == ACK_DONE as int
      requires numBytes + (if halfBlock then PAGE_SIZE * BYTES_PER_WORD else 0) <= DISK_BUF_SIZE
      requires startBlock >= 0 && blockOffset >= 0
      requires numBytes <= |arrived| && rx == arrived[numBytes..] && diskBuf[..] == arrived[..numBytes] + stale
      modifies this`acknowledgment, this`totalNumWords, this`rx, this`sent,
               this`images, buf, diskBuf, convertedDiskBuf
      ensures Valid()
      ensures Padded(arrived[..numBytes], stale, old(totalNumWords))
      ensures WriteStored(arrived, stale, old(sent), old(images), selected,
                          (startBlock + blockOffset) * BLOCK_BYTES, numBytes, halfBlock)
      ensures Pending() <= old(Pending())
    {
      PrepareWrite(arrived, stale);
      ghost var committed := CommittedAsWritten(arrived[..numBytes] + stale, numBytes, halfBlock);
      ghost var images1 := images;
      AcknowledgeWrite();
      if arrived[numBytes..] == [] {
        assert images == images1[selected := Overwrite(images1[selected], (startBlock + blockOffset) * BLOCK_BYTES,
                                                       ToStore(committed, numBytes / 2 + (if halfBlock then PAGE_SIZE else 0)))];
      } else {
        assert images == images1;
      }
    }

    /** The steps of process_write between the data and the acknowledgment:
        the stray-byte check, then the half-block padding as written. With
        `arrived` and `stale` as for FinishWrite, the first total_num_words
        words of `diskBuf` are then what CommittedAsWritten gives. */
    method PrepareWrite(ghost arrived: seq<Byte>, ghost stale: seq<Byte>)
      requires Valid() && 0 <= numBytes == 2 * totalNumWords
      requires numBytes + (if halfBlock then PAGE_SIZE * BYTES_PER_WORD else 0) <= DISK_BUF_SIZE
      requires numBytes <= |arrived| && diskBuf[..] == arrived[..numBytes] + stale
      modifies this`acknowledgment, this`totalNumWords, this`rx, buf, diskBuf
      ensures Valid()
      ensures acknowledgment == (if old(rx) == [] then old(acknowledgment) else NACK as int + 8)
      ensures rx == old(rx)[Min(|old(rx)|, BUF_SIZE)..]
      ensures Padded(arrived[..numBytes], stale, old(totalNumWords))
      ensures diskBuf[..] == if halfBlock then PadAsWritten(arrived[..numBytes] + stale, numBytes)
                             else arrived[..numBytes] + stale
      ensures Pending() <= old(Pending())
    {
      ghost var b := arrived[..numBytes] + stale;
      assert b[..numBytes] == arrived[..numBytes];
      if halfBlock && numBytes >= PAGE_SIZE * BYTES_PER_WORD {
        assert b[..numBytes + PAGE_SIZE * BYTES_PER_WORD] == arrived[..numBytes] + stale[..PAGE_SIZE * BYTES_PER_WORD];
      }
      DrainStray();
      if halfBlock {
        PadHalfBlockWrite();
      }
    }

    /** The last step of process_write: the acknowledgment goes out and,
        unless it is a NACK, the first total_num_words words of `diskBuf` are
        committed to the selected image. */
    method AcknowledgeWrite()
      requires Valid() && 0 <= 2 * totalNumWords <= DISK_BUF_SIZE
      requires startBlock >= 0 && blockOffset >= 0
      modifies this`sent, buf, this`images, convertedDiskBuf
      ensures Valid()
      ensures sent == old(sent) + WordBytes(acknowledgment)
      ensures images == if (acknowledgment / 1024) % 2 == 1 then old(images)
                        else old(images)[selected := Overwrite(old(images)[selected],
                               (startBlock + blockOffset) * BLOCK_BYTES, ToStore(diskBuf[..2 * totalNumWords], totalNumWords))]
    {
      SendWord(acknowledgment);
      if (acknowledgment / 1024) % 2 == 0 {     // !(acknowledgment & NACK)
        CommitWrite();
      }
    }

    /** The end of a successful process_write: the buffer, repacked for the
        image, is written at the requested blocks of the selected image. */
    method CommitWrite()
      requires Valid() && 0 <= 2 * totalNumWords <= DISK_BUF_SIZE
      requires startBlock >= 0 && blockOffset >= 0
      modifies this`images, convertedDiskBuf
      ensures Valid()
      ensures images == old(images)[selected := Overwrite(old(images)[selected],
                (startBlock + blockOffset) * BLOCK_BYTES, ToStore(diskBuf[..2 * totalNumWords], totalNumWords))]
    {
      PdpToDjg(diskBuf, convertedDiskBuf, totalNumWords);
      ConversionPrefix(diskBuf[..], totalNumWords, 2 * totalNumWords);
      WriteToFile(selected, (startBlock + blockOffset) * BLOCK_BYTES, totalNumWords * BYTES_PER_WORD);
    }

    // -------------------------------------------------------------------
    // The boot commands

    /** process_send_boot_sector: block 0 of the first image, converted for
        the wire, then the trailer byte 0200 if the whole block went through.
        Nothing is sent when the image is shorter than a block. */
    method ProcessSendBootSector()
      requires Valid()
      modifies this`sent, diskBuf, convertedDiskBuf
      ensures Valid()
      ensures |images[0]| < BLOCK_BYTES ==> sent == old(sent)
      ensures |images[0]| >= BLOCK_BYTES ==>
        sent == Gate(old(sent), [Block0Wire(images[0]), [TRAILER]], link)
    {
      var short := ReadBlock0();
      if !short {
        var ok := Transmit(convertedDiskBuf[..BLOCK_BYTES]);
        if ok {
          diskBuf[0] := TRAILER;
          ok := Transmit(diskBuf[..1]);
        }
      }
    }

    /** Block 0 of the first image read and converted for the wire, as both
        boot commands do; short when the image holds less than a block. */
    method ReadBlock0() returns (short: bool)
      requires Valid()
      modifies diskBuf, convertedDiskBuf
      ensures short == (|images[0]| < BLOCK_BYTES)
      ensures !short ==> convertedDiskBuf[..BLOCK_BYTES] == Block0Wire(images[0])
    {
      short := ReadFromFile(0, 0, BLOCK_BYTES);
      if !short {
        DjgToPdp(diskBuf, convertedDiskBuf, BLOCK_SIZE);
        ConversionPrefix(diskBuf[..], BLOCK_SIZE, BLOCK_BYTES);
        assert diskBuf[..BLOCK_BYTES] == images[0][..BLOCK_BYTES];
      }
    }

    /** HELPBoot with its two tables as parameters: `boot2` in the HELP loader
        format (nothing when its first word is refused; up to the first word
        with a bit of 0740 set), then `boot3` as word pairs, then the three
        patched chunks of block 0, each sent only if everything before it in
        the block phase went through. Bytes of the first two phases that do
        not go through are only reported. */
    method HelpBoot(boot2: seq<Word>, boot3: seq<Word>)
      requires Valid() && |boot2| > 0
      modifies this`sent, diskBuf, convertedDiskBuf
      ensures Valid()
      ensures HelpAborts(boot2) ==> sent == old(sent) + HelpPhase(boot2)
      ensures !HelpAborts(boot2) && |images[0]| < BLOCK_BYTES ==>
        sent == old(sent) + HelpPhase(boot2) + WordsBytes(boot3)
      ensures !HelpAborts(boot2) && |images[0]| >= BLOCK_BYTES ==>
        sent == Gate(old(sent) + HelpPhase(boot2) + WordsBytes(boot3), Chunks(Block0Wire(images[0])), link)
    {
      var aborted := SendBoot2(boot2);
      if aborted {
        return;
      }
      SendBoot3(boot3);
      SendBlock0Chunks();
    }

    /** The HELP loader phase: one byte per word of `boot2`, carrying the link
        of the next word; stops at the first word with a bit of 0740 set, and
        sends nothing when bit 04 of the first word is set. */
    method SendBoot2(boot2: seq<Word>) returns (aborted: bool)
      requires Valid() && |boot2| > 0
      modifies this`sent
      ensures Valid()
      ensures aborted == HelpAborts(boot2)
      ensures sent == old(sent) + HelpPhase(boot2)
    {
      if boot2[0] % 8 >= 4 {                // boot2[0] & 04
        return true;
      }
      var i := 0;
      while i < |boot2|
        invariant 0 <= i <= |boot2| && Valid()
        invariant forall j :: 0 <= j < i ==> WordLoadable(boot2[j])
        invariant sent == old(sent) + HelpBytes(boot2, i)
      {
        if (boot2[i] / 32) % 16 != 0 {      // boot2[i] & 0740
          assert FirstUnloadable(boot2) == i;
          return true;
        }
        var link := i + 1 < |boot2| && (boot2[i + 1] / 512) % 2 == 1;   // boot2[i + 1] & 01000
        var intval: int := boot2[i] as int + (if link then 4096 else 0);  // (link << 3) | boot2[i]
        var byteval: Byte := (intval * 8 + intval / 1024) % 256;         // (intval << 3) | (intval >> 10)
        var ok := Transmit([byteval]);
        assert HelpBytes(boot2, i + 1) == HelpBytes(boot2, i) + [HelpByte(boot2[i], LinkOf(boot2, i))];
        i := i + 1;
      }
      FirstUnloadableAll(boot2);
      return false;
    }

    /** The BOOT2 phase: each word of `boot3` as two 6-bit bytes, high half
        first, through `diskBuf`. */
    method SendBoot3(boot3: seq<Word>)
      requires Valid()
      modifies this`sent, diskBuf
      ensures Valid()
      ensures sent == old(sent) + WordsBytes(boot3)
    {
      var i := 0;
      while i < |boot3|
        invariant 0 <= i <= |boot3| && Valid()
        invariant sent == old(sent) + WordsBytes(boot3[..i])
      {
        diskBuf[0] := boot3[i] / 64;        // boot3[i] >> 6
        diskBuf[1] := boot3[i] % 64;        // boot3[i] & 077
        assert diskBuf[..2] == WordBytes(boot3[i]);
        var ok := Transmit(diskBuf[..2]);
        assert boot3[..i + 1][..i] == boot3[..i];
        i := i + 1;
      }
      assert boot3[..i] == boot3;
    }

    /** The BOOT3 phase: block 0 of the first image converted, sent as three
        patched chunks, each only if the previous one went through. */
    method SendBlock0Chunks()
      requires Valid()
      modifies this`sent, diskBuf, convertedDiskBuf
      ensures Valid()
      ensures |images[0]| < BLOCK_BYTES ==> sent == old(sent)
      ensures |images[0]| >= BLOCK_BYTES ==> sent == Gate(old(sent), Chunks(Block0Wire(images[0])), link)
    {
      var short := ReadBlock0();
      if !short {
        SendChunks();
      }
    }

    /** The three patched chunks of the converted block held in
        `convertedDiskBuf`. */
    method SendChunks()
      requires Valid()
      modifies this`sent, convertedDiskBuf
      ensures Valid()
      ensures sent == Gate(old(sent), Chunks(old(convertedDiskBuf[..BLOCK_BYTES])), link)
    {
      ghost var wire := convertedDiskBuf[..BLOCK_BYTES];
      GateThree(sent, Chunks(wire)[0], Chunks(wire)[1], Chunks(wire)[2], link);
      var ok := SendPatchedChunk(PATCH1_WORD, PATCH1, 72, 256);     // words 044 .. 0177
      assert convertedDiskBuf[..BLOCK_BYTES] == Patched1(wire);
      if ok {
        ok := SendPatchedChunk(PATCH2_WORD, PATCH2, 250, 512);      // words 0175 .. 0377
        assert convertedDiskBuf[..BLOCK_BYTES] == Patched2(wire);
        if ok {
          ok := SendPatchedChunk(PATCH3_WORD, PATCH3, 0, 6);        // words 0 .. 2
          assert convertedDiskBuf[..BLOCK_BYTES] == Patched3(wire);
        }
      }
    }

    /** One chunk of the BOOT3 phase: three words are patched into the
        converted block at `word`, then bytes `lo`..`hi` of the block are
        sent. */
    method SendPatchedChunk(word: nat, p: seq<Byte>, lo: nat, hi: nat) returns (ok: bool)
      requires Valid() && |p| == 6 && 2 * word + 6 <= BLOCK_BYTES && lo < hi <= BLOCK_BYTES
      modifies this`sent, convertedDiskBuf
      ensures Valid()
      ensures convertedDiskBuf[..BLOCK_BYTES] == Patch(old(convertedDiskBuf[..BLOCK_BYTES]), word, p)
      ensures sent == old(sent) + convertedDiskBuf[..BLOCK_BYTES][lo..hi]
      ensures ok == (hi - lo <= link(old(sent)))
    {
      ghost var before := convertedDiskBuf[..];
      PatchWords(convertedDiskBuf, word, p);
      PatchPrefix(before, word, p, BLOCK_BYTES);
      assert before[..BLOCK_BYTES] == old(convertedDiskBuf[..BLOCK_BYTES]);
      ok := Transmit(convertedDiskBuf[..BLOCK_BYTES][lo..hi]);
    }

    // -------------------------------------------------------------------
    // The command loop

    /** The effect of the transfer case of command_loop once initialize_xfr
        has resolved the request `x` for disk `unit`, in terms of the line
        (`rx0`, `bursts0`), the log with the acknowledgment appended
        (`announced`), the images and the disk buffer it started from. A
        refused request moves nothing and leaves the line, the images and the
        buffer alone; an accepted one has the effect Executed states. */
    ghost predicate Responded(x: Xfr, rx0: seq<Byte>, bursts0: seq<seq<Byte>>, announced: seq<Byte>,
                              images0: seq<seq<Byte>>, diskBuf0: seq<Byte>, unit: nat, outcome: Outcome)
      requires Valid() && 0 <= x.numBytes == 2 * x.totalNumWords
      requires x.req.startBlock >= 0 && x.req.blockOffset >= 0
      requires |images0| == DISK_COUNT && |diskBuf0| == DISK_BUF_SIZE && unit < DISK_COUNT
      reads this, diskBuf
    {
      var at := (x.req.startBlock + x.req.blockOffset) * BLOCK_BYTES;
      && |sent| >= |announced| && sent[..|announced|] == announced
      && (x.failed ==> && outcome == Continue && sent == announced && images == images0
                       && rx == rx0 && bursts == bursts0 && diskBuf[..] == diskBuf0)
      && (!x.failed ==>
            Executed(x.direction, x.numBytes, x.totalNumWords, x.halfBlock, at, rx0, bursts0, announced,
                     images0, diskBuf0, unit, outcome))
    }

    /** What the transfer case of command_loop does once initialize_xfr has
        resolved the request `x`: the acknowledgment goes out; a refused
        request ends there, an accepted one runs the executor for its
        direction, with the effects Responded states. */
    method Respond(ghost x: Xfr, accepted: bool) returns (outcome: Outcome)
      requires Valid() && accepted == !x.failed && 0 <= x.numBytes == 2 * x.totalNumWords
      requires && acknowledgment == x.acknowledgment && direction == x.direction
               && numBytes == x.numBytes && totalNumWords == x.totalNumWords && halfBlock == x.halfBlock
               && startBlock == x.req.startBlock && blockOffset == x.req.blockOffset
      requires startBlock >= 0 && blockOffset >= 0 && (halfBlock ==> direction == Write)
      requires accepted ==> Writable(disks[selected]) || direction == Read
      modifies this`acknowledgment, this`totalNumWords, this`rx, this`bursts, this`sent,
               this`images, buf, diskBuf, convertedDiskBuf
      ensures Valid()
      ensures outcome == Continue || outcome == Hung || outcome == Overflow
      ensures Pending() <= old(Pending())
      ensures outcome == Hung ==> bursts == []
      ensures ProtectedUnchanged(disks, old(images), images)
      ensures Responded(x, old(rx), old(bursts), old(sent) + WordBytes(x.acknowledgment), old(images),
                        old(diskBuf[..]), selected, outcome)
    {
      SendWord(acknowledgment);
      if accepted {
        outcome := Execute();
      } else {
        outcome := Continue;
      }
    }

    /** The effect of the executor on a transfer of `words` words (`n` bytes)
        in direction `dir` at byte `at` of the image of disk `unit`, from the
        line (`rx0`, `bursts0`), the log `sent0`, the images and the disk
        buffer it started from: Overflow, which sends nothing more and stores
        nothing, exactly when the transfer does not fit the buffer; a read changes no image and ends as ReadDone states;
        a write hangs exactly when its data never arrives, and otherwise ends
        as WriteStored states. */
    ghost predicate Executed(dir: Direction, n: int, words: int, half: bool, at: int,
                             rx0: seq<Byte>, bursts0: seq<seq<Byte>>, sent0: seq<Byte>,
                             images0: seq<seq<Byte>>, diskBuf0: seq<Byte>, unit: nat, outcome: Outcome)
      requires Valid() && 0 <= n == 2 * words && at >= 0
      requires |images0| == DISK_COUNT && |diskBuf0| == DISK_BUF_SIZE && unit < DISK_COUNT
      reads this, diskBuf
    {
      && (outcome == Overflow <==> n + (if half then PAGE_SIZE * BYTES_PER_WORD else 0) > DISK_BUF_SIZE)
      && (outcome == Overflow ==> sent == sent0 && images == images0)
      && (dir == Read ==> images == images0)
      && (dir == Read && outcome == Continue ==>
            bursts == bursts0 && ReadDone(rx0, sent0, diskBuf0, images0[unit], at, words))
      && (dir == Write && outcome != Overflow ==>
            var q := Pull(rx0, bursts0, n);
            && (outcome == Continue <==> n <= |q.0|)
            && (outcome == Continue ==>
                  bursts == q.1 && WriteStored(q.0, diskBuf0[n..], sent0, images0, unit, at, n, half)))
    }

    /** The executor chosen after an accepted request: process_write or
        process_read, unless the transfer does not fit the disk buffer, with
        the effect Executed states on the line, the log, the images and the
        buffer. A read sends the blocks and the acknowledgment; a write whose
        data arrives sends the acknowledgment and, unless it is a NACK, stores
        what ProcessWrite commits. */
    method Execute() returns (outcome: Outcome)
      requires Valid() && 0 <= numBytes == 2 * totalNumWords
      requires startBlock >= 0 && blockOffset >= 0 && (halfBlock ==> direction == Write)
      modifies this`acknowledgment, this`totalNumWords, this`rx, this`bursts, this`sent,
               this`images, buf, diskBuf, convertedDiskBuf
      ensures Valid()
      ensures outcome == Continue || outcome == Hung || outcome == Overflow
      ensures Pending() <= old(Pending())
      ensures outcome == Hung ==> bursts == []
      ensures |sent| >= |old(sent)| && sent[..|old(sent)|] == old(sent)
      ensures outcome != Continue ==> images == old(images)
      ensures forall u :: 0 <= u < DISK_COUNT && u != selected ==> images[u] == old(images)[u]
      ensures direction == Read ==> totalNumWords == old(totalNumWords)
      ensures direction == Write && outcome == Continue ==>
        totalNumWords == old(totalNumWords) + (if halfBlock then PAGE_SIZE else 0)
      ensures Executed(direction, numBytes, old(totalNumWords), halfBlock, (startBlock + blockOffset) * BLOCK_BYTES,
                       old(rx), old(bursts), old(sent), old(images), old(diskBuf[..]), selected, outcome)
    {
      if numBytes + (if halfBlock then PAGE_SIZE * BYTES_PER_WORD else 0) > DISK_BUF_SIZE {
        return Overflow;
      }
      if direction == Write {
        outcome := WriteTransfer();
      } else {
        ReadTransfer();
        outcome := Continue;
        assert !(direction == Write && outcome == Continue);
      }
    }

    /** The write branch of Execute: process_write on a transfer that fits,
        ending in Hung when its data never arrives. */
    method WriteTransfer() returns (outcome: Outcome)
      requires Valid() && 0 <= numBytes == 2 * totalNumWords && direction == Write
      requires numBytes + (if halfBlock then PAGE_SIZE * BYTES_PER_WORD else 0) <= DISK_BUF_SIZE
      requires startBlock >= 0 && blockOffset >= 0
      modifies this`acknowledgment, this`totalNumWords, this`rx, this`bursts, this`sent,
               this`images, buf, diskBuf, convertedDiskBuf
      ensures Valid()
      ensures outcome == Continue || outcome == Hung
      ensures Pending() <= old(Pending())
      ensures outcome == Hung ==> bursts == [] && images == old(images) && sent == old(sent)
      ensures |sent| >= |old(sent)| && sent[..|old(sent)|] == old(sent)
      ensures forall u :: 0 <= u < DISK_COUNT && u != selected ==> images[u] == old(images)[u]
      ensures outcome == Continue <==> numBytes <= |old(Pulled(numBytes)).0|
      ensures outcome == Continue ==>
        && bursts == old(Pulled(numBytes)).1
        && totalNumWords == old(totalNumWords) + (if halfBlock then PAGE_SIZE else 0)
        && WriteStored(old(Pulled(numBytes)).0, old(diskBuf[numBytes..]), old(sent), old(images), selected,
                       (startBlock + blockOffset) * BLOCK_BYTES, numBytes, halfBlock)
    {
      var received := ProcessWrite();
      outcome := if received then Continue else Hung;
    }

    /** The read branch of Execute: process_read on a transfer that fits,
        ending as ReadDone states, short read included. */
    method ReadTransfer()
      requires Valid() && 0 <= numBytes == 2 * totalNumWords && numBytes <= DISK_BUF_SIZE
      requires startBlock >= 0 && blockOffset >= 0
      modifies this`acknowledgment, this`rx, this`sent, buf, diskBuf, convertedDiskBuf
      ensures Valid()
      ensures Pending() <= old(Pending())
      ensures |sent| >= |old(sent)| && sent[..|old(sent)|] == old(sent)
      ensures ReadDone(old(rx), old(sent), old(diskBuf[..]), images[selected],
                       (startBlock + blockOffset) * BLOCK_BYTES, totalNumWords)
    {
      ProcessRead();
    }

    /** Case 'A'..'H' of command_loop for the command `c`, in terms of the
        state it started from (the line `rx0` and `bursts0`, the direction
        `dir0`, the log `sent0`, the images `images0`, the disk buffer `diskBuf0`)
        and the state it leaves. It hangs when the parameter words never
        arrive. Otherwise the request is the one Resolve gives for them, and
        its direction is the one left for the next command: its CDF, count and
        acknowledgment go out; a refused request ends there, leaving the rest
        of the line and the disk buffer as they were; an accepted read sends
        the buffer as ReadDone states (the blocks fetched, then the buffer's
        old tail on a short read) and DONE (NACK|8 with stray input, one read
        of which it drains); an accepted write hangs unless its data arrives,
        then sends DONE (or NACK|8 with stray input, leaving the images) and
        stores the bytes CommittedAsWritten gives, repacked, at the requested
        blocks, leaving the line and the buffer as WriteStored states.
        `params` are the parameter bytes and `cdfSent` the CDF word sent. */
    ghost predicate TransferEffect(c: Byte, rx0: seq<Byte>, bursts0: seq<seq<Byte>>, dir0: Direction,
                                   sent0: seq<Byte>, images0: seq<seq<Byte>>, diskBuf0: seq<Byte>,
                                   outcome: Outcome, params: seq<Byte>, cdfSent: int)
      requires Valid() && IsTransferCommand(c) && |images0| == DISK_COUNT && |diskBuf0| == DISK_BUF_SIZE
      reads this, diskBuf
    {
      var k := ParamBytes(dialMode);
      var p := Pull(rx0, bursts0, k);
      && (|p.0| < k ==> outcome == Hung && sent == sent0 && images == images0)
      && (k <= |p.0| ==>
            var x := Resolve(c, p.0[..k], disks, dialMode, dir0);
            var announced := sent0 + WordBytes(cdfSent) + WordBytes(x.wordCount) + WordBytes(x.acknowledgment);
            var after := p.0[k..];
            RequestBounds(c, p.0[..k], disks, dialMode, dir0);
            TransferSizes(c, p.0[..k], disks, dialMode, dir0);
            && params == p.0[..k] && selected == Unit(c) && direction == x.direction
            && (x.req.cdf.Some? ==> cdfSent == x.req.cdf.value)
            && Responded(x, after, p.1, announced, images0, diskBuf0, Unit(c), outcome))
    }

    /** Case 'A'..'H' of command_loop: initialize_xfr, the acknowledgment and,
        for an accepted request, the executor. Only an accepted write changes
        an image, and only that of the selected disk, which is in use and not
        write-protected. `params` names the parameter bytes and `cdfSent` the
        CDF word sent. */
    method RunTransfer() returns (outcome: Outcome, ghost params: seq<Byte>, ghost cdfSent: int)
      requires Valid() && IsTransferCommand(buf[0])
      modifies this`selected, this`blockOffset, this`acknowledgment, this`direction,
               this`startBlock, this`totalNumWords, this`numBytes, this`halfBlock,
               this`rx, this`bursts, this`sent, this`images, buf, diskBuf, convertedDiskBuf
      ensures Valid()
      ensures outcome == Continue || outcome == Hung || outcome == Overflow
      ensures Pending() <= old(Pending())
      ensures outcome == Hung ==> bursts == []
      ensures outcome == Overflow ==> dialMode
      ensures ProtectedUnchanged(disks, old(images), images)
      ensures TransferEffect(old(buf[0]), old(rx), old(bursts), old(direction), old(sent), old(images),
                             old(diskBuf[..]), outcome, params, cdfSent)
    {
      var retval, received;
      retval, received, params, cdfSent := InitializeXfr();
      if !received {
        return Hung, params, cdfSent;
      }
      ghost var x := Resolve(old(buf[0]), params, disks, dialMode, old(direction));
      RequestBounds(old(buf[0]), params, disks, dialMode, old(direction));
      TransferSizes(old(buf[0]), params, disks, dialMode, old(direction));
      if !dialMode {
        Os8TransferFitsBuffer(old(buf[0]), params, disks, old(direction));
      }
      assert selected == Unit(old(buf[0])) && (retval == 0 <==> !x.failed);
      outcome := Respond(x, retval == 0);
    }

    /** The switch of command_loop on the command byte `c`, in terms of the
        state it started from (as for TransferEffect) and the state it leaves:
        NUL runs HELPBoot on the built-in tables, '@' sends the boot sector,
        'A'..'H' run a transfer, 'Q' quits; any other byte is ignored. Only a
        transfer can change an image, take bytes from the line or change the
        direction; 'Q' and an ignored byte leave the disk buffer as well. */
    ghost predicate CommandEffect(c: Byte, rx0: seq<Byte>, bursts0: seq<seq<Byte>>, dir0: Direction,
                                  sent0: seq<Byte>, images0: seq<seq<Byte>>, diskBuf0: seq<Byte>,
                                  outcome: Outcome, params: seq<Byte>, cdfSent: int)
      requires Valid() && |images0| == DISK_COUNT && |diskBuf0| == DISK_BUF_SIZE
      reads this, diskBuf
    {
      && (IsTransferCommand(c) ==>
            outcome != Quit && TransferEffect(c, rx0, bursts0, dir0, sent0, images0, diskBuf0, outcome, params, cdfSent))
      && (!IsTransferCommand(c) ==> images == images0 && rx == rx0 && bursts == bursts0 && direction == dir0)
      && (c == CMD_QUIT ==> outcome == Quit && sent == sent0 && diskBuf[..] == diskBuf0)
      && (c == CMD_HELP_BOOT ==>
            && outcome == Continue
            && (|images0[0]| < BLOCK_BYTES ==> sent == sent0 + HelpPhase(BOOT2) + WordsBytes(BOOT3))
            && (|images0[0]| >= BLOCK_BYTES ==>
                  sent == Gate(sent0 + HelpPhase(BOOT2) + WordsBytes(BOOT3), Chunks(Block0Wire(images0[0])), link)))
      && (c == CMD_BOOT_SECTOR ==>
            && outcome == Continue
            && (|images0[0]| < BLOCK_BYTES ==> sent == sent0)
            && (|images0[0]| >= BLOCK_BYTES ==> sent == Gate(sent0, [Block0Wire(images0[0]), [TRAILER]], link)))
      && (c != CMD_HELP_BOOT && c != CMD_BOOT_SECTOR && c != CMD_QUIT && !IsTransferCommand(c) ==>
            outcome == Continue && sent == sent0 && diskBuf[..] == diskBuf0)
    }

    /** One pass of command_loop: a blocking read of the command byte `cmd`,
        then the case it selects, which starts from the line as that read
        leaves it. */
    method HandleCommand() returns (outcome: Outcome, ghost cmd: int, ghost params: seq<Byte>, ghost cdfSent: int)
      requires Valid()
      modifies this`selected, this`blockOffset, this`acknowledgment, this`direction,
               this`startBlock, this`totalNumWords, this`numBytes, this`halfBlock,
               this`rx, this`bursts, this`sent, this`images, buf, diskBuf, convertedDiskBuf
      ensures Valid()
      ensures Pending() <= old(Pending())
      ensures outcome == Continue ==> Pending() < old(Pending())
      ensures outcome == Hung ==> bursts == []
      ensures outcome == Overflow ==> dialMode
      ensures ProtectedUnchanged(disks, old(images), images)
      ensures old(Pulled(1)).0 == [] ==> outcome == Hung && sent == old(sent) && images == old(images)
      ensures old(Pulled(1)).0 != [] ==>
        && cmd == old(Pulled(1)).0[0]
        && CommandEffect(old(Pulled(1)).0[0], old(Pulled(1)).0[1..], old(Pulled(1)).1, old(direction),
                         old(sent), old(images), old(diskBuf[..]), outcome, params, cdfSent)
    {
      cmd, params, cdfSent := 0, [], 0;
      var received := Receive(buf, 1);
      if !received {
        return Hung, cmd, params, cdfSent;
      }
      cmd := buf[0];
      outcome, params, cdfSent := Dispatch(buf[0]);
    }

    /** The switch of command_loop on the command byte `c`, held in buf[0],
        with the effects CommandEffect states. */
    method Dispatch(c: Byte) returns (outcome: Outcome, ghost params: seq<Byte>, ghost cdfSent: int)
      requires Valid() && buf[0] == c
      modifies this`selected, this`blockOffset, this`acknowledgment, this`direction,
               this`startBlock, this`totalNumWords, this`numBytes, this`halfBlock,
               this`rx, this`bursts, this`sent, this`images, buf, diskBuf, convertedDiskBuf
      ensures Valid()
      ensures Pending() <= old(Pending())
      ensures outcome == Hung ==> bursts == []
      ensures outcome == Overflow ==> dialMode
      ensures ProtectedUnchanged(disks, old(images), images)
      ensures CommandEffect(c, old(rx), old(bursts), old(direction), old(sent), old(images), old(diskBuf[..]),
                            outcome, params, cdfSent)
    {
      params, cdfSent := [], 0;
      if c == CMD_HELP_BOOT {
        Boot2Accepted();
        HelpBoot(BOOT2, BOOT3);
        outcome := Continue;
      } else if c == CMD_BOOT_SECTOR {
        ProcessSendBootSector();
        outcome := Continue;
      } else if IsTransferCommand(c) {
        outcome, params, cdfSent := RunTransfer();
      } else if c == CMD_QUIT {
        outcome := Quit;                // cleanup_and_exit: the images are closed, the process ends
      } else {
        outcome := Continue;            // unknown command, ignored
      }
    }

    /** command_loop: commands are handled until one ends the loop, which
        happens for every finite input: the client quits, a read never
        completes, or a DIAL transfer overruns the disk buffer. Across the
        whole run no image of a disk that is not in use or is write-protected
        changes. */
    method CommandLoop() returns (outcome: Outcome)
      requires Valid()
      modifies this`selected, this`blockOffset, this`acknowledgment, this`direction,
               this`startBlock, this`totalNumWords, this`numBytes, this`halfBlock,
               this`rx, this`bursts, this`sent, this`images, buf, diskBuf, convertedDiskBuf
      ensures Valid()
      ensures outcome == Quit || outcome == Hung || outcome == Overflow
      ensures outcome == Hung ==> bursts == []
      ensures outcome == Overflow ==> dialMode
      ensures ProtectedUnchanged(disks, old(images), images)
    {
      outcome := Continue;
      while outcome == Continue
        invariant Valid()
        invariant outcome == Continue || outcome == Quit || outcome == Hung || outcome == Overflow
        invariant outcome == Hung ==> bursts == []
        invariant outcome == Overflow ==> dialMode
        invariant ProtectedUnchanged(disks, old(images), images)
        decreases if outcome == Continue then Pending() + 1 else 0
      {
        ghost var cmd, params, cdfSent;
        outcome, cmd, params, cdfSent := HandleCommand();
      }
    }
  }
}
