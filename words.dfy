/** The word codec of the disk server: how a 12-bit PDP-8 word travels over the
    serial line as two 6-bit halves, and the protocol constants.

    Dafny has no octal literals; every constant is written in decimal with the
    octal value the server uses in a comment. */
module Words {

  /** A byte on the serial line, in a buffer or in a disk image. */
  type Byte = x: int | 0 <= x < 256

  /** A 12-bit PDP-8 word. */
  type Word = x: int | 0 <= x < 4096

  const ACK_READ: Word := 2048    // 04000
  const ACK_WRITE: Word := 2049   // 04001
  const ACK_DONE: Word := 0
  const NACK: Word := 1024        // 02000

  const PAGE_SIZE: nat := 128     // 0200 words
  const BLOCK_SIZE: nat := 256    // 0400 words, two pages
  const BYTES_PER_WORD: nat := 2
  /** Blocks on one side of an RK05 pack (06260). */
  const NUMBER_OF_BLOCKS: nat := 3248
  /** Blocks of one DIAL sub-disk (0400). */
  const DIAL_SUB_DISK_BLK_COUNT: nat := 256

  /** decode_word: word `pos` of a buffer the client sent, as two 6-bit halves,
      low half first; the two reserved bits of each byte are masked off. */
  function DecodeWord(b: seq<Byte>, pos: nat): (w: Word)
    requires 2 * pos + 1 < |b|
  {
    ((b[2 * pos + 1] as int) % 64) * 64 + (b[2 * pos] as int) % 64
  }

  /** The two bytes send_word puts on the line for `word`: bits 6..11 first,
      then bits 0..5. `word` may be any int (the server also sends values it
      never masked); the shifts and masks act on its two's complement. */
  function WordBytes(word: int): (r: seq<Byte>)
  {
    [(word / 64) % 64, word % 64]
  }

  lemma DecodeWordHalves(b: seq<Byte>, pos: nat)
    requires 2 * pos + 1 < |b|
    ensures DecodeWord(b, pos) / 64 == b[2 * pos + 1] % 64
    ensures DecodeWord(b, pos) % 64 == b[2 * pos] % 64
  {
    var hi, lo := (b[2 * pos + 1] as int) % 64, (b[2 * pos] as int) % 64;
    assert DecodeWord(b, pos) == hi * 64 + lo;
  }

  /** Only the low six bits of each byte reach the decoded word. */
  lemma DecodeIgnoresReservedBits(b: seq<Byte>, c: seq<Byte>, pos: nat)
    requires 2 * pos + 1 < |b| && 2 * pos + 1 < |c|
    requires b[2 * pos] % 64 == c[2 * pos] % 64
    requires b[2 * pos + 1] % 64 == c[2 * pos + 1] % 64
    ensures DecodeWord(b, pos) == DecodeWord(c, pos)
  {
  }

  /** Every 12-bit word is the decoding of exactly one pair of 6-bit bytes,
      its low half followed by its high half. */
  lemma DecodeWordOnto(w: Word, lo: Byte, hi: Byte)
    requires lo < 64 && hi < 64
    ensures DecodeWord([lo, hi], 0) == w <==> (lo == w % 64 && hi == w / 64)
  {
    DecodeWordHalves([lo, hi], 0);
  }

  /** send_word emits two 6-bit bytes that carry the word modulo 4096, high half
      first: the opposite order to the one decode_word reads. */
  lemma WordBytesValue(word: int)
    ensures |WordBytes(word)| == 2
    ensures WordBytes(word)[0] < 64 && WordBytes(word)[1] < 64
    ensures (WordBytes(word)[0] as int) * 64 + WordBytes(word)[1] == word % 4096
    ensures DecodeWord([WordBytes(word)[1], WordBytes(word)[0]], 0) == word % 4096
  {
    var q := word / 64;
    assert word == 64 * q + word % 64;
    assert q == 64 * (q / 64) + q % 64;
    assert word == 4096 * (q / 64) + (q % 64) * 64 + word % 64;
  }

  /** Two words are sent as the same bytes exactly when they agree modulo 4096. */
  lemma WordBytesInjective(u: int, v: int)
    ensures WordBytes(u) == WordBytes(v) <==> u % 4096 == v % 4096
  {
    WordBytesValue(u);
    WordBytesValue(v);
    if u % 4096 == v % 4096 {
      var a: seq<int>, b: seq<int> := WordBytes(u), WordBytes(v);
      assert a[0] == b[0] by {
        assert a[0] == (a[0] * 64 + a[1]) / 64;
        assert b[0] == (b[0] * 64 + b[1]) / 64;
      }
    }
  }
}
