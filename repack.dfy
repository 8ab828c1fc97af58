/** The two whole-buffer repackings between the client's wire layout and the
    layout of the simulator disk image, for a 12-bit word with bits abcd
    (a, b, c, d each three bits, a the most significant):

      sent by the client:   XXcccddd XXaaabbb   (low half first)
      stored in the image:  bbcccddd 0000aaab   (little-endian 12-bit value)
      sent to the client:   00aaabbb 00cccddd   (high half first)

    pdp_to_djg goes from the first layout to the second, djg_to_pdp from the
    second to the third. Both work pair by pair on byte buffers. */
module Repack {
  import opened Words

  /** pdp_to_djg, first byte of a stored word: bb from the client's high
      byte, cccddd from its low byte. */
  function StoreLow(lo: Byte, hi: Byte): (r: Byte)
  {
    ((hi as int) % 4) * 64 + (lo as int) % 64
  }

  /** pdp_to_djg, second byte of a stored word: 0000aaab. */
  function StoreHigh(hi: Byte): (r: Byte)
  {
    ((hi as int) / 4) % 16
  }

  /** djg_to_pdp, first byte sent: 00aaabbb. */
  function WireHigh(lo: Byte, hi: Byte): (r: Byte)
  {
    ((hi as int) % 16) * 4 + (lo as int) / 64
  }

  /** djg_to_pdp, second byte sent: 00cccddd. */
  function WireLow(lo: Byte): (r: Byte)
  {
    (lo as int) % 64
  }

  /** The 12-bit value a stored pair holds (the image is little-endian). */
  function StoredValue(s: seq<Byte>, i: nat): (r: int)
    requires 2 * i + 1 < |s|
  {
    s[2 * i] as int + 256 * (s[2 * i + 1] as int)
  }

  /** A stored image buffer in which every high byte has its top four bits clear. */
  ghost predicate WellFormedStore(s: seq<Byte>)
  {
    |s| % 2 == 0 && forall i :: 0 <= i < |s| / 2 ==> s[2 * i + 1] < 16
  }

  /** Byte j of pdp_to_djg's output, for a pair that lies inside `src`. */
  function StoreAt(src: seq<Byte>, j: nat): (r: Byte)
    requires j + 1 - j % 2 < |src|
  {
    if j % 2 == 0 then StoreLow(src[j], src[j + 1]) else StoreHigh(src[j])
  }

  /** Byte j of djg_to_pdp's output, for a pair that lies inside `src`. */
  function WireAt(src: seq<Byte>, j: nat): (r: Byte)
    requires j + 1 - j % 2 < |src|
  {
    if j % 2 == 0 then WireHigh(src[j], src[j + 1]) else WireLow(src[j - 1])
  }

  /** The first 2n bytes of `src` in the wire layout repacked for the image. */
  function ToStore(src: seq<Byte>, n: nat): (r: seq<Byte>)
    requires 2 * n <= |src|
  {
    seq(2 * n, j requires 0 <= j < 2 * n => StoreAt(src, j))
  }

  /** The first 2n bytes of `src` in the image layout repacked for the wire. */
  function ToWire(src: seq<Byte>, n: nat): (r: seq<Byte>)
    requires 2 * n <= |src|
  {
    seq(2 * n, j requires 0 <= j < 2 * n => WireAt(src, j))
  }

  /** Exchanges the two bytes of each of the first n pairs. */
  function SwapPairs(s: seq<Byte>, n: nat): (r: seq<Byte>)
    requires 2 * n <= |s|
  {
    seq(2 * n, j requires 0 <= j < 2 * n => if j % 2 == 0 then s[j + 1] else s[j - 1])
  }

  /** Clears the two reserved bits of every byte. */
  function Mask6(s: seq<Byte>): (r: seq<Byte>)
  {
    seq(|s|, j requires 0 <= j < |s| => (s[j] as int) % 64)
  }

  // ---------------------------------------------------------------------
  // Per-word facts

  lemma StorePairValue(lo: Byte, hi: Byte)
    ensures StoreHigh(hi) < 16
    ensures StoreLow(lo, hi) as int + 256 * (StoreHigh(hi) as int) == ((hi as int) % 64) * 64 + (lo as int) % 64
  {
    var h := hi as int;
    assert h % 64 == ((h / 4) % 16) * 4 + h % 4;
  }

  lemma WirePairValue(lo: Byte, hi: Byte)
    ensures WireHigh(lo, hi) < 64 && WireLow(lo) < 64
    ensures (WireHigh(lo, hi) as int) * 64 + WireLow(lo) as int == (lo as int) + 256 * ((hi as int) % 16)
  {
    var l := lo as int;
    assert l == (l / 64) * 64 + l % 64;
  }

  // ---------------------------------------------------------------------
  // Whole-buffer properties

  /** pdp_to_djg keeps each word's 12-bit value: stored little-endian, it is
      the word decode_word reads from the client's pair, and its high byte is
      below 16. */
  lemma ToStoreValue(src: seq<Byte>, n: nat, i: nat)
    requires 2 * n <= |src| && i < n
    ensures ToStore(src, n)[2 * i + 1] < 16
    ensures StoredValue(ToStore(src, n), i) == DecodeWord(src, i)
  {
    var r := ToStore(src, n);
    assert r[2 * i] == StoreLow(src[2 * i], src[2 * i + 1]);
    assert (2 * i + 1) % 2 == 1;
    assert r[2 * i + 1] == StoreHigh(src[2 * i + 1]);
    StorePairValue(src[2 * i], src[2 * i + 1]);
  }

  /** djg_to_pdp sends each stored word high half first, in two 6-bit bytes,
      and the pair carries the stored value with the high byte cut to 4 bits. */
  lemma ToWireValue(src: seq<Byte>, n: nat, i: nat)
    requires 2 * n <= |src| && i < n
    ensures ToWire(src, n)[2 * i] < 64 && ToWire(src, n)[2 * i + 1] < 64
    ensures (ToWire(src, n)[2 * i] as int) * 64 + ToWire(src, n)[2 * i + 1] as int
            == (src[2 * i] as int) + 256 * ((src[2 * i + 1] as int) % 16)
  {
    var r := ToWire(src, n);
    assert r[2 * i] == WireHigh(src[2 * i], src[2 * i + 1]);
    assert (2 * i + 1) % 2 == 1;
    assert r[2 * i + 1] == WireLow(src[2 * i]);
    WirePairValue(src[2 * i], src[2 * i + 1]);
  }

  lemma WireStoreWirePair(src: seq<Byte>, n: nat, i: nat)
    requires 2 * n <= |src| && i < n
    ensures ToWire(ToStore(src, n), n)[2 * i] == (src[2 * i + 1] as int) % 64
    ensures ToWire(ToStore(src, n), n)[2 * i + 1] == (src[2 * i] as int) % 64
  {
    var s := ToStore(src, n);
    var w := ToWire(s, n);
    ToStoreValue(src, n, i);
    ToWireValue(s, n, i);
    DecodeWordHalves(src, i);
    assert (s[2 * i + 1] as int) % 16 == s[2 * i + 1] as int;
    var v := DecodeWord(src, i);
    assert (w[2 * i] as int) * 64 + w[2 * i + 1] as int == v;
  }

  /** Round trip client -> image -> client: each pair comes back with its two
      bytes exchanged and masked to six bits (the same word, now high half
      first). */
  lemma {:induction false} WireStoreWire(src: seq<Byte>, n: nat)
    requires 2 * n <= |src|
    ensures ToWire(ToStore(src, n), n) == SwapPairs(Mask6(src[..2 * n]), n)
  {
    var w := ToWire(ToStore(src, n), n);
    var e := SwapPairs(Mask6(src[..2 * n]), n);
    forall j | 0 <= j < 2 * n
      ensures w[j] == e[j]
    {
      var i := j / 2;
      WireStoreWirePair(src, n, i);
      if j % 2 == 0 {
        assert j == 2 * i;
      } else {
        assert j == 2 * i + 1;
      }
    }
  }

  /** One stored pair sent by djg_to_pdp and read back, low half first, by
      pdp_to_djg. */
  lemma StorePairRoundTrip(lo: Byte, hi: Byte)
    requires hi < 16
    ensures StoreLow(WireLow(lo), WireHigh(lo, hi)) == lo
    ensures StoreHigh(WireHigh(lo, hi)) == hi
  {
    var l := lo as int;
    assert l == (l / 64) * 64 + l % 64;
  }

  lemma StoreWireStorePair(src: seq<Byte>, n: nat, i: nat)
    requires 2 * n == |src| && WellFormedStore(src) && i < n
    ensures ToStore(SwapPairs(ToWire(src, n), n), n)[2 * i] == src[2 * i]
    ensures ToStore(SwapPairs(ToWire(src, n), n), n)[2 * i + 1] == src[2 * i + 1]
  {
    var t := ToWire(src, n);
    var w := SwapPairs(t, n);
    var s := ToStore(w, n);
    assert i < |src| / 2;
    assert src[2 * i + 1] < 16;
    assert (2 * i + 1) % 2 == 1;
    assert t[2 * i] == WireHigh(src[2 * i], src[2 * i + 1]);
    assert t[2 * i + 1] == WireLow(src[2 * i]);
    assert w[2 * i] == t[2 * i + 1];
    assert w[2 * i + 1] == t[2 * i];
    assert s[2 * i] == StoreLow(w[2 * i], w[2 * i + 1]);
    assert s[2 * i + 1] == StoreHigh(w[2 * i + 1]);
    StorePairRoundTrip(src[2 * i], src[2 * i + 1]);
  }

  /** Round trip image -> client -> image: for a well-formed image buffer, the
      pairs djg_to_pdp sends, read back in the client's order (low half first)
      and repacked by pdp_to_djg, give the image bytes unchanged. */
  lemma {:induction false} StoreWireStore(src: seq<Byte>, n: nat)
    requires 2 * n == |src| && WellFormedStore(src)
    ensures ToStore(SwapPairs(ToWire(src, n), n), n) == src
  {
    var s := ToStore(SwapPairs(ToWire(src, n), n), n);
    forall j | 0 <= j < 2 * n
      ensures s[j] == src[j]
    {
      var i := j / 2;
      StoreWireStorePair(src, n, i);
      if j % 2 == 0 {
        assert j == 2 * i;
      } else {
        assert j == 2 * i + 1;
      }
    }
  }

  /** Only the first 2n bytes of the source reach either conversion, so a
      conversion of a whole buffer is the conversion of the bytes it covers. */
  lemma ConversionPrefix(src: seq<Byte>, n: nat, m: nat)
    requires 2 * n <= m <= |src|
    ensures ToStore(src, n) == ToStore(src[..m], n)
    ensures ToWire(src, n) == ToWire(src[..m], n)
  {
    forall j | 0 <= j < 2 * n
      ensures StoreAt(src, j) == StoreAt(src[..m], j) && WireAt(src, j) == WireAt(src[..m], j)
    {
      assert src[..m][j] == src[j];
      assert src[..m][j + 1 - j % 2] == src[j + 1 - j % 2];
      if j % 2 == 1 {
        assert src[..m][j - 1] == src[j - 1];
      }
    }
  }

  // ---------------------------------------------------------------------
  // The two loops, on arrays

  /** pdp_to_djg: fills the first 2 * wordCount bytes of `dst` and leaves the
      rest of `dst` as it was. */
  method PdpToDjg(src: array<Byte>, dst: array<Byte>, wordCount: nat)
    requires src != dst
    requires 2 * wordCount <= src.Length && 2 * wordCount <= dst.Length
    modifies dst
    ensures dst[..] == ToStore(src[..], wordCount) + old(dst[2 * wordCount..])
  {
    var i := 0;
    while i < wordCount * 2
      invariant 0 <= i <= 2 * wordCount && i % 2 == 0
      invariant forall j :: 0 <= j < i ==> dst[j] == StoreAt(src[..], j)
      invariant forall j :: i <= j < dst.Length ==> dst[j] == old(dst[j])
    {
      dst[i + 1] := StoreHigh(src[i + 1]);
      dst[i] := StoreLow(src[i], src[i + 1]);
      assert dst[i] == StoreAt(src[..], i);
      assert (i + 1) % 2 == 1;
      assert dst[i + 1] == StoreAt(src[..], i + 1);
      i := i + 2;
    }
    assert dst[..] == ToStore(src[..], wordCount) + old(dst[2 * wordCount..]);
  }

  /** djg_to_pdp: fills the first 2 * wordCount bytes of `dst` and leaves the
      rest of `dst` as it was. */
  method DjgToPdp(src: array<Byte>, dst: array<Byte>, wordCount: nat)
    requires src != dst
    requires 2 * wordCount <= src.Length && 2 * wordCount <= dst.Length
    modifies dst
    ensures dst[..] == ToWire(src[..], wordCount) + old(dst[2 * wordCount..])
  {
    var i := 0;
    while i < wordCount * 2
      invariant 0 <= i <= 2 * wordCount && i % 2 == 0
      invariant forall j :: 0 <= j < i ==> dst[j] == WireAt(src[..], j)
      invariant forall j :: i <= j < dst.Length ==> dst[j] == old(dst[j])
    {
      dst[i] := WireHigh(src[i], src[i + 1]);
      dst[i + 1] := WireLow(src[i]);
      assert dst[i] == WireAt(src[..], i);
      assert (i + 1) % 2 == 1;
      assert dst[i + 1] == WireAt(src[..], i + 1);
      i := i + 2;
    }
    assert dst[..] == ToWire(src[..], wordCount) + old(dst[2 * wordCount..]);
  }
}
