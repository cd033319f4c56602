/** Masking of payload data (cipher.go; section 5.3 of RFC 6455). */
module Masking {
  import opened Bytes
  import Bits

  /** a ^ b for two bytes */
  function Xor(a: byte, b: byte): byte
  {
    Bits.XorByte(0, 0, a, b);
    Bits.Xor(a, b)
  }

  /** The byte b at position pos of a stream, masked: byte pos mod 4 of the key is XORed onto it. */
  function MaskByte(b: byte, mask: Mask, pos: nat): byte
  {
    Xor(b, mask[pos % 4])
  }

  /** p masked by its definition, where p[0] is at position offset of the stream. */
  function Masked(p: seq<byte>, mask: Mask, offset: nat): (r: seq<byte>)
    ensures |r| == |p|
    ensures forall i :: 0 <= i < |p| ==> r[i] == MaskByte(p[i], mask, offset + i)
  {
    seq(|p|, i requires 0 <= i < |p| => MaskByte(p[i], mask, offset + i))
  }

  lemma {:induction false} MaskByteTwice(b: byte, mask: Mask, pos: nat)
    ensures MaskByte(MaskByte(b, mask, pos), mask, pos) == b
  {
    Bits.XorTwice(b, mask[pos % 4]);
  }

  /** Masking twice with the same key and offset is the identity. */
  lemma {:induction false} MaskedTwice(p: seq<byte>, mask: Mask, offset: nat)
    ensures Masked(Masked(p, mask, offset), mask, offset) == p
  {
    forall i | 0 <= i < |p|
      ensures Masked(Masked(p, mask, offset), mask, offset)[i] == p[i]
    {
      MaskByteTwice(p[i], mask, offset + i);
    }
  }

  /** A payload may be masked chunk by chunk when every chunk continues at the offset where the last one ended. */
  lemma MaskedConcat(p: seq<byte>, q: seq<byte>, mask: Mask, offset: nat)
    ensures Masked(p + q, mask, offset) == Masked(p, mask, offset) + Masked(q, mask, offset + |p|)
  {}

  lemma {:induction false} MaskedSplit(p: seq<byte>, k: nat, mask: Mask, offset: nat)
    requires k <= |p|
    ensures Masked(p, mask, offset)[..k] == Masked(p[..k], mask, offset)
    ensures Masked(p, mask, offset)[k..] == Masked(p[k..], mask, offset + k)
  {
    hide Masked;
    var a, b := p[..k], p[k..];
    assert p == a + b;
    MaskedConcat(a, b, mask, offset);
  }

  /** The bytes of s as an integer, least significant byte first (binary.LittleEndian.Uint32 and Uint64). */
  function LittleEndian(s: seq<byte>): nat
  {
    if s == [] then 0 else 256 * LittleEndian(s[1..]) + s[0]
  }

  /** The k low bytes of x, least significant first (binary.LittleEndian.PutUint64). */
  function PutLittleEndian(x: nat, k: nat): (s: seq<byte>)
    ensures |s| == k
    decreases k
  {
    if k == 0 then [] else [Byte(x)] + PutLittleEndian(x / 256, k - 1)
  }

  /** The key twice in one 64-bit word; the halves do not overlap, so | is +. */
  function DoubledMask(mask: Mask): nat
  {
    LittleEndian(mask) * 0x1_0000_0000 + LittleEndian(mask)
  }

  lemma {:induction false} DoubledMaskIsMaskTwice(mask: Mask)
    ensures DoubledMask(mask) == LittleEndian(mask + mask)
  {
    var m := LittleEndian(mask);
    assert (mask + mask)[4..] == mask;
    assert (mask + mask)[3..] == mask[3..] + mask;
    assert (mask + mask)[2..] == mask[2..] + mask;
    assert (mask + mask)[1..] == mask[1..] + mask;
    assert LittleEndian(mask[3..] + mask) == 256 * m + mask[3] by { assert (mask[3..] + mask)[1..] == mask; }
    assert LittleEndian(mask[2..] + mask) == 256 * (256 * m + mask[3]) + mask[2] by {
      assert (mask[2..] + mask)[1..] == mask[3..] + mask;
    }
    assert LittleEndian(mask[1..] + mask) == 256 * (256 * (256 * m + mask[3]) + mask[2]) + mask[1] by {
      assert (mask[1..] + mask)[1..] == mask[2..] + mask;
    }
    assert LittleEndian(mask[3..]) == mask[3] by { assert mask[3..][1..] == []; }
    assert LittleEndian(mask[2..]) == (mask[3] as int) * 256 + mask[2] by { assert mask[2..][1..] == mask[3..]; }
    assert LittleEndian(mask[1..]) == 256 * ((mask[3] as int) * 256 + mask[2]) + mask[1] by {
      assert mask[1..][1..] == mask[2..];
    }
  }

  /** XOR of two words is XOR of their bytes. */
  lemma {:induction false} XorOfWords(s: seq<byte>, t: seq<byte>)
    requires |s| == |t|
    ensures var r := PutLittleEndian(Bits.Xor(LittleEndian(s), LittleEndian(t)), |s|);
            forall i :: 0 <= i < |s| ==> r[i] == Xor(s[i], t[i])
  {
    hide Bits.Xor;
    if s != [] {
      var a, b := LittleEndian(s[1..]), LittleEndian(t[1..]);
      XorOfWords(s[1..], t[1..]);
      Bits.XorByte(a, b, s[0], t[0]);
      var x := Bits.Xor(256 * a + s[0], 256 * b + t[0]);
      assert x / 256 == Bits.Xor(a, b) && x % 256 == Xor(s[0], t[0]);
      var rest := PutLittleEndian(Bits.Xor(a, b), |s| - 1);
      assert PutLittleEndian(x, |s|) == [Xor(s[0], t[0])] + rest;
      forall i | 1 <= i < |s|
        ensures PutLittleEndian(x, |s|)[i] == Xor(s[i], t[i])
      {
        assert rest[i - 1] == Xor(s[1..][i - 1], t[1..][i - 1]);
      }
    }
  }

  /** One XOR with the doubled key masks eight bytes that start at a multiple of four. */
  lemma {:induction false} DoubledMaskIsAligned(a: seq<byte>, m: Mask, offset: nat)
    requires |a| == 8 && offset % 4 == 0
    ensures PutLittleEndian(Bits.Xor(LittleEndian(a), DoubledMask(m)), |a|) == Masked(a, m, offset)
  {
    hide *;
    DoubledMaskIsMaskTwice(m);
    var key := m + m;
    XorOfWords(a, key);
    var r := PutLittleEndian(Bits.Xor(LittleEndian(a), LittleEndian(key)), |a|);
    forall i | 0 <= i < |a|
      ensures r[i] == Masked(a, m, offset)[i]
    {
      KeyTwice(m, offset, i);
      assert Masked(a, m, offset)[i] == MaskByte(a[i], m, offset + i);
    }
  }

  lemma {:induction false} KeyTwice(m: Mask, offset: nat, i: nat)
    requires offset % 4 == 0 && i < 8
    ensures forall b: byte :: MaskByte(b, m, offset + i) == Xor(b, (m + m)[i])
  {
    hide Xor;
    SamePosition(offset, 0, i);
    assert (m + m)[i] == m[i % 4];
  }

  lemma SamePosition(a: nat, b: nat, i: nat)
    requires a % 4 == b % 4
    ensures (a + i) % 4 == (b + i) % 4
  {}

  lemma {:induction false} MaskedPeriod(p: seq<byte>, mask: Mask, a: nat, b: nat)
    requires a % 4 == b % 4
    ensures Masked(p, mask, a) == Masked(p, mask, b)
  {
    forall i | 0 <= i < |p|
      ensures Masked(p, mask, a)[i] == Masked(p, mask, b)[i]
    {
      SamePosition(a, b, i);
    }
  }

  /** offset and mpos are the same position in the key. */
  predicate SameInKey(offset: nat, mpos: nat)
  {
    offset % 4 == mpos % 4
  }

  /** The parts that Cipher masks one by one and eight by eight make up the whole masked payload. */
  lemma {:induction false} ThreeParts(left: seq<byte>, middle: seq<byte>, right: seq<byte>, mask: Mask,
      offset: nat, mpos: nat)
    requires SameInKey(offset, mpos)
    ensures Masked(left + middle + right, mask, offset)
         == Masked(left, mask, mpos) + Masked(middle, mask, offset + |left|)
            + Masked(right, mask, mpos + |left| + |middle|)
  {
    MaskedConcat(left + middle, right, mask, offset);
    MaskedConcat(left, middle, mask, offset);
    MaskedPeriod(left, mask, offset, mpos);
    SamePosition(offset, mpos, |left| + |middle|);
    MaskedPeriod(right, mask, offset + |left| + |middle|, mpos + |left| + |middle|);
  }

  /** Writes the size low bytes of x into b[at..], least significant byte first. */
  method PutUint(b: array<byte>, at: nat, x: nat, size: nat)
    requires at + size <= b.Length
    modifies b
    ensures b[at..at + size] == PutLittleEndian(x, size)
    ensures forall k :: 0 <= k < b.Length && !(at <= k < at + size) ==> b[k] == old(b[k])
  {
    var s := PutLittleEndian(x, size);
    forall k | 0 <= k < size {
      b[at + k] := s[k];
    }
  }

  /** Maps a position in the key to the number of bytes to mask one by one before it is aligned. */
  const REMAIN: seq<nat> := [0, 3, 2, 1]

  /** Masks payload[from..to] byte by byte; payload[from] is at position offset of the masked stream. */
  method MaskBytes(payload: array<byte>, from: nat, to: nat, mask: Mask, offset: nat)
    requires from <= to <= payload.Length
    modifies payload
    ensures payload[from..to] == Masked(old(payload[from..to]), mask, offset)
    ensures forall k :: 0 <= k < payload.Length && !(from <= k < to) ==> payload[k] == old(payload[k])
  {
    for i := from to to
      invariant forall k :: from <= k < i ==> payload[k] == MaskByte(old(payload[k]), mask, offset + (k - from))
      invariant forall k :: 0 <= k < payload.Length && !(from <= k < i) ==> payload[k] == old(payload[k])
    {
      payload[i] := MaskByte(payload[i], mask, offset + (i - from));
    }
  }

  /** Masks 8 * words bytes at payload[from..]; payload[from] is at a position 4 * q, aligned with the key. */
  method MaskWords(payload: array<byte>, from: nat, words: nat, mask: Mask, ghost q: nat)
    requires from + 8 * words <= payload.Length
    modifies payload
    ensures payload[from..from + 8 * words] == Masked(old(payload[from..from + 8 * words]), mask, 4 * q)
    ensures forall k :: 0 <= k < payload.Length && !(from <= k < from + 8 * words) ==> payload[k] == old(payload[k])
  {
    hide *;
    var m2 := DoubledMask(mask);
    ghost var plain := payload[from..from + 8 * words];
    assert payload[from..from] == plain[..0];
    NothingMasked(mask, 4 * q);
    for i := 0 to words
      invariant payload[from..from + 8 * i] == Masked(plain[..8 * i], mask, 4 * q)
      invariant forall k :: 0 <= k < payload.Length && !(from <= k < from + 8 * i) ==> payload[k] == old(payload[k])
    {
      ghost var next := plain[8 * i..][..8];
      assert forall k {:trigger next[k]} :: 0 <= k < 8 ==> next[k] == plain[8 * i + k] == payload[from + 8 * i + k];
      assert payload[from + 8 * i..from + 8 * i + 8] == next;
      MaskNext(payload, from, 8 * i, m2, plain[..8 * i], next, mask, q, q + 2 * i);
      Taken(plain, 8 * i, 8);
      assert 8 * (i + 1) == 8 * i + 8;
    }
    assert plain[..8 * words] == plain;
  }

  lemma NothingMasked(mask: Mask, offset: nat)
    ensures Masked([], mask, offset) == []
  {}

  /** One more word behind len masked bytes. */
  method MaskNext(payload: array<byte>, from: nat, len: nat, m2: nat, ghost done: seq<byte>, ghost next: seq<byte>,
      ghost mask: Mask, ghost q: nat, ghost r: nat)
    requires from + len + 8 <= payload.Length && m2 == DoubledMask(mask)
    requires payload[from..from + len] == Masked(done, mask, 4 * q) && payload[from + len..from + len + 8] == next
    requires |done| == len && 4 * q + len == 4 * r
    modifies payload
    ensures payload[from..from + len + 8] == Masked(done + next, mask, 4 * q)
    ensures forall k :: 0 <= k < payload.Length && !(from + len <= k < from + len + 8) ==> payload[k] == old(payload[k])
  {
    hide *;
    ghost var masked := payload[from..from + len];
    MaskWord(payload, from + len, m2, mask, r);
    assert payload[from..from + len] == masked;
    MaskedConcat(done, next, mask, 4 * q);
    TwoSlices(payload, from, from + len, from + len + 8);
  }

  method MaskWord(payload: array<byte>, j: nat, m2: nat, ghost mask: Mask, ghost q: nat)
    requires j + 8 <= payload.Length
    requires m2 == DoubledMask(mask)
    modifies payload
    ensures payload[j..j + 8] == Masked(old(payload[j..j + 8]), mask, 4 * q)
    ensures forall k :: 0 <= k < payload.Length && !(j <= k < j + 8) ==> payload[k] == old(payload[k])
  {
    hide *;
    var chunk := payload[j..j + 8];
    DoubledMaskIsAligned(chunk, mask, 4 * q);
    PutUint(payload, j, Bits.Xor(LittleEndian(chunk), m2), |chunk|);
  }

  /** The two bytewise ends leave a whole number of words in the middle, the first one aligned with the key. */
  lemma PartSizes(n: nat, offset: nat)
    requires n >= 8
    ensures var ln := REMAIN[offset % 4]; var rn := (n - ln) % 8;
            && ln + 8 * ((n - ln - rn) / 8) + rn == n
            && offset + ln == 4 * ((offset + ln) / 4)
            && SameInKey(offset, offset % 4)
  {}

  /** Masks payload[lo..hi] in place, eight bytes at a time where it is long enough. */
  method Cipher(payload: array<byte>, lo: nat, hi: nat, mask: Mask, offset: nat)
    requires lo <= hi <= payload.Length
    modifies payload
    ensures payload[lo..hi] == Masked(old(payload[lo..hi]), mask, offset)
    ensures forall k :: 0 <= k < payload.Length && !(lo <= k < hi) ==> payload[k] == old(payload[k])
  {
    var n := hi - lo;
    if n < 8 {
      MaskBytes(payload, lo, hi, mask, offset);
      return;
    }
    var mpos := offset % 4;
    var ln := REMAIN[mpos];
    var rn := (n - ln) % 8;
    var words := (n - ln - rn) / 8;
    PartSizes(n, offset);
    MaskParts(payload, lo, ln, words, rn, mask, mpos, offset, (offset + ln) / 4);
  }

  lemma {:induction false} MaskedInParts(left: seq<byte>, middle: seq<byte>, right: seq<byte>, maskedLeft: seq<byte>,
      maskedMiddle: seq<byte>, maskedRight: seq<byte>, mask: Mask, offset: nat, mpos: nat, mid: nat)
    requires SameInKey(offset, mpos) && mid == offset + |left|
    requires maskedLeft == Masked(left, mask, mpos) && maskedMiddle == Masked(middle, mask, mid)
    requires maskedRight == Masked(right, mask, mpos + (|left| + |middle|))
    ensures maskedLeft + maskedMiddle + maskedRight == Masked(left + middle + right, mask, offset)
  {
    hide *;
    ThreeParts(left, middle, right, mask, offset, mpos);
    assert mpos + |left| + |middle| == mpos + (|left| + |middle|);
  }

  /** The two bytewise loops of Cipher, over ln bytes on the left and rn on the right, and its main loop. */
  method MaskParts(payload: array<byte>, lo: nat, ln: nat, words: nat, rn: nat, mask: Mask, mpos: nat,
      ghost offset: nat, ghost q: nat)
    requires lo + ln + 8 * words + rn <= payload.Length
    requires SameInKey(offset, mpos) && offset + ln == 4 * q
    modifies payload
    ensures var hi := lo + ln + 8 * words + rn;
            && payload[lo..hi] == Masked(old(payload[lo..hi]), mask, offset)
            && forall k :: 0 <= k < payload.Length && !(lo <= k < hi) ==> payload[k] == old(payload[k])
  {
    hide *;
    var l, r, hi := lo + ln, lo + ln + 8 * words, lo + ln + 8 * words + rn;
    ghost var left, middle, right := payload[lo..l], payload[l..r], payload[r..hi];
    InThree(payload, lo, l, r, hi);
    MaskEnds(payload, lo, l, r, hi, mask, mpos);
    ghost var maskedLeft, maskedRight := payload[lo..l], payload[r..hi];
    MaskWords(payload, l, words, mask, q);
    ghost var maskedMiddle := payload[l..r];
    assert payload[lo..l] == maskedLeft && payload[r..hi] == maskedRight;
    InThree(payload, lo, l, r, hi);
    MaskedInParts(left, middle, right, maskedLeft, maskedMiddle, maskedRight, mask, offset, mpos, 4 * q);
  }

  lemma {:induction false} InThree(a: array<byte>, lo: nat, l: nat, r: nat, hi: nat)
    requires lo <= l <= r <= hi <= a.Length
    ensures a[lo..hi] == a[lo..l] + a[l..r] + a[r..hi]
  {
    TwoSlices(a, lo, l, hi);
    TwoSlices(a, l, r, hi);
    Associative(a[lo..l], a[l..r], a[r..hi]);
  }

  method MaskEnds(payload: array<byte>, lo: nat, l: nat, r: nat, hi: nat, mask: Mask, mpos: nat)
    requires lo <= l <= r <= hi <= payload.Length
    modifies payload
    ensures payload[lo..l] == Masked(old(payload[lo..l]), mask, mpos)
    ensures payload[r..hi] == Masked(old(payload[r..hi]), mask, mpos + (r - lo))
    ensures payload[l..r] == old(payload[l..r])
    ensures forall k :: 0 <= k < payload.Length && !(lo <= k < hi) ==> payload[k] == old(payload[k])
  {
    hide *;
    ghost var middle, right := payload[l..r], payload[r..hi];
    MaskBytes(payload, lo, l, mask, mpos);
    ghost var maskedLeft := payload[lo..l];
    assert payload[r..hi] == right && payload[l..r] == middle;
    MaskBytes(payload, r, hi, mask, mpos + (r - lo));
    assert payload[lo..l] == maskedLeft && payload[l..r] == middle;
  }
}
