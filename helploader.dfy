/** The two bootstrap tables HELPBoot sends to a bare PDP-8, and the encodings
    it uses for them:

    - BOOT2 goes out one byte per word in the HELP loader format: the byte
      holds bits 0..4 of the word in its bits 3..7, bits 10..11 in its bits
      0..1, and in bit 2 the "link": bit 9 (01000) of the NEXT word. Bits 5..8
      (0740) of every word must be clear.
    - BOOT3 goes out as two 6-bit bytes per word, high half first.
    - Block 0 of the first disk then follows in three patched chunks. */
module HelpLoader {
  import opened Words

  /** BOOT2 (the word at address 0, which must be 0, is not sent). */
  const BOOT2: seq<Word> := [
    0,                          // must have 01000 clear
    0, 2586,                    // 00000 05032
    3610, 3594, 515, 1566,      // 07032 07012 01003 03036
    2064, 1538, 2064, 1547,     // 04020 03002 04020 03013
    2568, 0, 0, 0,              // 05010 00000 00000 00000
    0, 2074, 3590, 3590,        // 00000 04032 07006 07006
    3590, 1536, 2074, 512,      // 07006 03000 04032 01000
    1560,                       // 03030
    2563,                       // 05004-1, one less because of the ISZ
    0]                          // NUL, to reach the JMP

  /** BOOT3: the patch, BOOT3 proper as address/value pairs, and its start. */
  const BOOT3: seq<Word> := [
    2832, 0, 1794,              // 05420 00000 03402
    33, 2064,                   // 00041 04020
    34, 1538,                   // 00042 03002
    35, 2064,                   // 00043 04020
    36, 1537,                   // 00044 03001
    37, 2064,                   // 00045 04020
    38, 1575,                   // 00046 03047
    39, 0,                      // 00047 00000
    40, 2064,                   // 00050 04020
    41, 1794,                   // 00051 03402
    42, 1026,                   // 00052 02002
    43, 3584,                   // 00053 07000
    44, 1025,                   // 00054 02001
    45, 2600,                   // 00055 05050
    46, 2593,                   // 00056 05041
    12, 2593]                   // 00014 05041, starts BOOT3

  // ---------------------------------------------------------------------
  // The HELP loader byte format

  /** A word HELPBoot accepts: `w & 0740` is zero. */
  predicate WordLoadable(w: Word)
  {
    (w / 32) % 16 == 0
  }

  /** The check HELPBoot makes of the first word before anything is sent:
      `boot2[0] & 04` must be zero. */
  predicate FirstWordAccepted(t: seq<Word>)
  {
    |t| > 0 && t[0] % 8 < 4
  }

  /** The link carried with word i: bit 01000 of word i + 1, clear for the last word. */
  predicate LinkOf(t: seq<Word>, i: nat)
  {
    i + 1 < |t| && (t[i + 1] / 512) % 2 == 1
  }

  /** HELPBoot's byte for a word: `intval = (link << 3) | w`, then
      `(intval << 3) | (intval >> 10)` cut to eight bits. */
  function HelpByte(w: Word, link: bool): (r: Byte)
  {
    var intval := w + (if link then 4096 else 0);
    (intval * 8 + intval / 1024) % 256
  }

  /** The bytes for the first k words of a table. */
  function HelpBytes(t: seq<Word>, k: nat): (r: seq<Byte>)
    requires k <= |t|
  {
    seq(k, i requires 0 <= i < k => HelpByte(t[i], LinkOf(t, i)))
  }

  /** Index of the first word HELPBoot rejects, or |t| when it accepts them all. */
  function FirstUnloadable(t: seq<Word>): (k: nat)
    ensures k <= |t|
    ensures forall i :: 0 <= i < k ==> WordLoadable(t[i])
    ensures k < |t| ==> !WordLoadable(t[k])
  {
    if t == [] || !WordLoadable(t[0]) then 0
    else
      var k' := FirstUnloadable(t[1..]);
      assert forall i :: 1 <= i < k' + 1 ==> t[i] == t[1..][i - 1];
      k' + 1
  }

  /** Whether HELPBoot gives up before sending BOOT3. */
  predicate HelpAborts(t: seq<Word>)
  {
    !FirstWordAccepted(t) || FirstUnloadable(t) < |t|
  }

  /** The bytes HELPBoot sends for the table: nothing when the first word is
      refused, else one byte per word up to the first rejected word. */
  function HelpPhase(t: seq<Word>): (r: seq<Byte>)
  {
    if !FirstWordAccepted(t) then [] else HelpBytes(t, FirstUnloadable(t))
  }

  /** The loader side of the format, as an independent reference: word i is
      rebuilt from byte i and the link of byte i - 1. */
  function HelpDecode(b: seq<Byte>): (t: seq<Word>)
  {
    seq(|b|, i requires 0 <= i < |b| =>
      ((b[i] as int) / 8) % 32 + ((b[i] as int) % 4) * 1024
      + (if i > 0 && ((b[i - 1] as int) / 4) % 2 == 1 then 512 else 0))
  }

  /** The byte is `((w & 037) << 3) | ((w >> 10) & 03)`, with 04 added when the
      link is set; bits 5..9 of the word do not reach it. */
  lemma HelpByteFields(w: Word, link: bool)
    ensures HelpByte(w, link) as int == (w % 32) * 8 + w / 1024 + (if link then 4 else 0)
  {
    var l := if link then 4 else 0;
    var intval := w + 1024 * l;
    var k := w / 32 + 32 * l;
    assert intval == 32 * k + w % 32;
    assert intval / 1024 == w / 1024 + l by {
      assert intval == 1024 * (w / 1024 + l) + w % 1024;
    }
    var low := (w % 32) * 8 + w / 1024 + l;
    assert 0 <= low < 256;
    assert intval * 8 + intval / 1024 == 256 * k + low;
    ShiftedLowByte(k, low);
  }

  /** The low byte of `256 * k + low` is `low`; kept apart so that the solver
      meets this fact without the rest of `HelpByteFields` in view. */
  lemma ShiftedLowByte(k: int, low: int)
    requires 0 <= low < 256
    ensures (256 * k + low) % 256 == low
  {
  }

  lemma HelpWordRoundTrip(w: Word, link: bool, prevLink: bool)
    requires WordLoadable(w)
    ensures var b := HelpByte(w, link) as int;
      (b / 8) % 32 + (b % 4) * 1024 + (if prevLink then 512 else 0)
        == w - ((w / 512) % 2) * 512 + (if prevLink then 512 else 0)
    ensures ((HelpByte(w, link) as int) / 4) % 2 == (if link then 1 else 0)
  {
    HelpByteFields(w, link);
    var b := HelpByte(w, link) as int;
    var l := if link then 4 else 0;
    assert b == (w % 32) * 8 + w / 1024 + l;
    assert w / 1024 + l < 8;
    assert b / 8 == w % 32 && (b / 8) % 32 == w % 32;
    assert b % 8 == w / 1024 + l;
    assert b % 4 == w / 1024;
    assert (b / 4) % 2 == l / 4;
    WordBitFields(w);
  }

  /** A word is the sum of its fields 037, 0740, 01000 and 06000. */
  lemma WordBitFields(w: Word)
    ensures w == w % 32 + 32 * ((w / 32) % 16) + 512 * ((w / 512) % 2) + 1024 * (w / 1024)
  {
    var q := w / 32;
    assert w == w % 32 + 32 * q;
    assert q / 16 == w / 512;
    assert q == q % 16 + 16 * (w / 512);
    var r := w / 512;
    assert r / 2 == w / 1024;
    assert r == r % 2 + 2 * (w / 1024);
  }

  /** The loader rebuilds every word of a table HELPBoot accepts, provided the
      first word has bit 01000 clear (no byte before it carries that bit). */
  lemma {:induction false} HelpRoundTrip(t: seq<Word>)
    requires FirstUnloadable(t) == |t|
    requires |t| > 0 ==> (t[0] / 512) % 2 == 0
    ensures HelpDecode(HelpBytes(t, |t|)) == t
  {
    var b := HelpBytes(t, |t|);
    var d := HelpDecode(b);
    forall i | 0 <= i < |t|
      ensures d[i] == t[i]
    {
      var prev := i > 0 && ((b[i - 1] as int) / 4) % 2 == 1;
      HelpWordRoundTrip(t[i], LinkOf(t, i), prev);
      if i > 0 {
        HelpWordRoundTrip(t[i - 1], LinkOf(t, i - 1), false);
        assert prev == LinkOf(t, i - 1);
      }
    }
  }

  /** BOOT2 passes both of HELPBoot's checks, is sent as 26 bytes, and the
      loader can rebuild it from them. */
  lemma Boot2Accepted()
    ensures !HelpAborts(BOOT2)
    ensures |HelpPhase(BOOT2)| == 26
    ensures HelpDecode(HelpPhase(BOOT2)) == BOOT2
  {
    Boot2Loadable();
    assert BOOT2[0] == 0 && |BOOT2| == 26;
    TableAccepted(BOOT2);
  }

  /** A table whose words all pass, whose first word passes the initial check
      and has 01000 clear, is sent whole and rebuilt whole. */
  lemma TableAccepted(t: seq<Word>)
    requires forall i :: 0 <= i < |t| ==> WordLoadable(t[i])
    requires |t| > 0 && t[0] % 8 < 4 && (t[0] / 512) % 2 == 0
    ensures !HelpAborts(t)
    ensures HelpPhase(t) == HelpBytes(t, |t|) && |HelpPhase(t)| == |t|
    ensures HelpDecode(HelpPhase(t)) == t
  {
    FirstUnloadableAll(t);
    HelpRoundTrip(t);
  }

  lemma Boot2Loadable()
    ensures forall i :: 0 <= i < |BOOT2| ==> WordLoadable(BOOT2[i])
  {
    Boot2LoadableFrom0();
    Boot2LoadableFrom9();
    Boot2LoadableFrom18();
  }

  lemma Boot2LoadableFrom0()
    ensures forall i :: 0 <= i < 9 ==> WordLoadable(BOOT2[i])
  {
    var t := BOOT2;
    assert |t| == 26;
    assert WordLoadable(t[0]) && WordLoadable(t[1]) && WordLoadable(t[2]) && WordLoadable(t[3]);
    assert WordLoadable(t[4]) && WordLoadable(t[5]) && WordLoadable(t[6]) && WordLoadable(t[7]);
    assert WordLoadable(t[8]);
  }

  lemma Boot2LoadableFrom9()
    ensures forall i :: 9 <= i < 18 ==> WordLoadable(BOOT2[i])
  {
    var t := BOOT2;
    assert |t| == 26;
    assert WordLoadable(t[9]) && WordLoadable(t[10]) && WordLoadable(t[11]) && WordLoadable(t[12]);
    assert WordLoadable(t[13]) && WordLoadable(t[14]) && WordLoadable(t[15]) && WordLoadable(t[16]);
    assert WordLoadable(t[17]);
  }

  lemma Boot2LoadableFrom18()
    ensures forall i :: 18 <= i < |BOOT2| ==> WordLoadable(BOOT2[i])
  {
    var t := BOOT2;
    assert |t| == 26;
    assert WordLoadable(t[18]) && WordLoadable(t[19]) && WordLoadable(t[20]) && WordLoadable(t[21]);
    assert WordLoadable(t[22]) && WordLoadable(t[23]) && WordLoadable(t[24]) && WordLoadable(t[25]);
  }

  lemma FirstUnloadableAll(t: seq<Word>)
    requires forall i :: 0 <= i < |t| ==> WordLoadable(t[i])
    ensures FirstUnloadable(t) == |t|
  {
  }

  // ---------------------------------------------------------------------
  // BOOT3 and block 0

  /** The bytes of a table sent two 6-bit bytes per word, high half first. */
  function WordsBytes(ws: seq<Word>): (r: seq<Byte>)
  {
    if ws == [] then [] else WordsBytes(ws[..|ws| - 1]) + WordBytes(ws[|ws| - 1])
  }

  /** Each word of the table becomes the pair `[w >> 6, w & 077]`, in order. */
  lemma {:induction false} WordsBytesPairs(ws: seq<Word>, i: nat)
    requires i < |ws|
    ensures |WordsBytes(ws)| == 2 * |ws|
    ensures WordsBytes(ws)[2 * i] == ws[i] / 64 && WordsBytes(ws)[2 * i + 1] == ws[i] % 64
  {
    WordsBytesLength(ws);
    var init := ws[..|ws| - 1];
    WordsBytesLength(init);
    if i < |ws| - 1 {
      WordsBytesPairs(init, i);
    }
  }

  lemma {:induction false} WordsBytesLength(ws: seq<Word>)
    ensures |WordsBytes(ws)| == 2 * |ws|
  {
    if ws != [] {
      WordsBytesLength(ws[..|ws| - 1]);
    }
  }

  /** The three-word patches HELPBoot writes into the converted block 0 before
      each chunk: address, word count and CDF, each as two wire bytes. */
  const PATCH1: seq<Byte> := [62, 39, 62, 39, 50, 9]   // 076 047, 076 047, 062 011
  const PATCH2: seq<Byte> := [62, 0, 62, 0, 50, 1]     // 076 000, 076 000, 062 001
  const PATCH3: seq<Byte> := [62, 5, 62, 5, 44, 2]     // 076 005, 076 005, 054 002

  /** Word offsets of the patches (044, 0175, 0). */
  const PATCH1_WORD: nat := 36
  const PATCH2_WORD: nat := 125
  const PATCH3_WORD: nat := 0

  /** Writes the six bytes of `p` over words `word`..`word + 2` of a wire buffer. */
  function Patch(b: seq<Byte>, word: nat, p: seq<Byte>): (r: seq<Byte>)
    requires |p| == 6 && 2 * word + 6 <= |b|
  {
    b[..2 * word] + p + b[2 * word + 6..]
  }

  /** The converted block 0 after the first, second and third patch. */
  function Patched1(wire: seq<Byte>): (r: seq<Byte>)
    requires |wire| == 512
  {
    Patch(wire, PATCH1_WORD, PATCH1)
  }

  function Patched2(wire: seq<Byte>): (r: seq<Byte>)
    requires |wire| == 512
  {
    Patch(Patched1(wire), PATCH2_WORD, PATCH2)
  }

  function Patched3(wire: seq<Byte>): (r: seq<Byte>)
    requires |wire| == 512
  {
    Patch(Patched2(wire), PATCH3_WORD, PATCH3)
  }

  /** The three chunks: words 044..0177 after the first patch, words
      0175..0377 after the second, words 0..2 after the third. */
  function Chunks(wire: seq<Byte>): (r: seq<seq<Byte>>)
    requires |wire| == 512
  {
    [Patched1(wire)[72..256], Patched2(wire)[250..512], Patched3(wire)[0..6]]
  }

  /** What the chunks hold: each starts with its patch, followed by the
      converted block-0 words it covers, unpatched. */
  lemma ChunkContents(wire: seq<Byte>)
    requires |wire| == 512
    ensures Chunks(wire)[0] == PATCH1 + wire[78..256]
    ensures Chunks(wire)[1] == PATCH2 + wire[256..512]
    ensures Chunks(wire)[2] == PATCH3
    ensures |Chunks(wire)[0]| == 2 * (128 - 36) && |Chunks(wire)[1]| == 2 * (256 - 125)
  {
    var p1 := Patched1(wire);
    assert p1[72..256] == PATCH1 + wire[78..256];
    var p2 := Patched2(wire);
    assert p2[250..512] == PATCH2 + p1[256..512];
    assert p1[256..512] == wire[256..512];
    var p3 := Patched3(wire);
    assert p3[0..6] == PATCH3;
  }
}
