/** Bytes, masking keys, the library's error values and big-endian integers. */
module Bytes {
  import Bits


  type byte = b: int | 0 <= b < 256

  /** A masking key: four arbitrary bytes. */
  type Mask = m: seq<byte> | |m| == 4 witness ZERO_MASK

  const ZERO_MASK: seq<byte> := [0, 0, 0, 0]

  /** Truncates an integer to its low byte, as Go's byte(n) does, also for negative n. */
  function Byte(n: int): byte
  {
    n % 256
  }

  /** Go's error values; Nil is the absence of an error. */
  datatype Error =
    | Nil
    | EOF
    | UnexpectedEOF
    | WriteFailed
    | HeaderLengthMSB
    | HeaderLengthUnexpected
    | Protocol(violation: Violation)
    | NoFrameAdvance
    | InvalidUTF8
    | NotEmpty
    | ControlOverflow
    | NotControlFrame
    | Closed(code: int, reason: seq<byte>)

  /** The protocol errors of check.go. */
  datatype Violation =
    | OpCodeReserved
    | ControlPayloadOverflow
    | ControlNotFinal
    | NonZeroRsv
    | MaskRequired
    | MaskUnexpected
    | ContinuationExpected
    | ContinuationUnexpected
    | StatusCodeNotInUse
    | StatusCodeApplicationLevel
    | StatusCodeNoMeaning
    | StatusCodeUnknown
    | InvalidReason

  /** The k low bytes of n, most significant first (binary.BigEndian.PutUint16 and PutUint64). */
  function BigEndian(n: int, k: nat): (s: seq<byte>)
    ensures |s| == k
    decreases k
  {
    if k == 0 then [] else BigEndian(n / 256, k - 1) + [Byte(n)]
  }

  /** The unsigned integer that s spells, most significant byte first (binary.BigEndian.Uint16 and Uint64). */
  function Unsigned(s: seq<byte>): nat
  {
    if s == [] then 0 else Unsigned(s[..|s| - 1]) * 256 + s[|s| - 1]
  }

  /** n is an unsigned integer of at most k bytes. */
  predicate Fits(n: int, k: nat)
    decreases k
  {
    if k == 0 then n == 0 else Fits(n / 256, k - 1)
  }

  lemma {:induction false} FitsMore(n: int, k: nat)
    requires Fits(n, k)
    ensures Fits(n, k + 1) && 0 <= n
    decreases k
  {
    if k > 0 {
      FitsMore(n / 256, k - 1);
    }
  }

  lemma {:induction false} UnsignedBigEndian(n: int, k: nat)
    requires Fits(n, k)
    ensures Unsigned(BigEndian(n, k)) == n
    decreases k
  {
    if k > 0 {
      UnsignedBigEndian(n / 256, k - 1);
      assert BigEndian(n, k)[..k - 1] == BigEndian(n / 256, k - 1);
    }
  }

  lemma {:induction false} BigEndianUnsigned(s: seq<byte>)
    ensures Fits(Unsigned(s), |s|)
    ensures BigEndian(Unsigned(s), |s|) == s
  {
    if s != [] {
      var init, last := s[..|s| - 1], s[|s| - 1];
      BigEndianUnsigned(init);
      assert Unsigned(s) / 256 == Unsigned(init) && Unsigned(s) % 256 == last;
      assert BigEndian(Unsigned(s), |s|) == BigEndian(Unsigned(init), |init|) + [last];
      assert s == init + [last];
    }
  }

  /** Two bytes hold exactly the numbers below 2^16. */
  lemma {:induction false} FitsTwo(n: int)
    ensures Fits(n, 2) <==> 0 <= n < 0x1_0000
  {
    assert Fits(n, 2) <==> Fits(n / 256, 1);
    assert Fits(n / 256, 1) <==> n / 256 / 256 == 0;
  }

  /** Eight bytes hold exactly the numbers below 2^64. */
  lemma {:induction false} FitsEight(n: int)
    ensures Fits(n, 8) <==> 0 <= n < 0x1_0000_0000_0000_0000
  {
    var a := n / 0x1_0000;
    var b := a / 0x1_0000;
    var c := b / 0x1_0000;
    FitsTwo(c);
    assert Fits(n, 8) <==> Fits(n / 256, 7);
    assert Fits(n / 256, 7) <==> Fits(a, 6) by { assert n / 256 / 256 == a; }
    assert Fits(a, 6) <==> Fits(a / 256, 5);
    assert Fits(a / 256, 5) <==> Fits(b, 4) by { assert a / 256 / 256 == b; }
    assert Fits(b, 4) <==> Fits(b / 256, 3);
    assert Fits(b / 256, 3) <==> Fits(c, 2) by { assert b / 256 / 256 == c; }
  }

  lemma {:induction false} FirstOfBigEndian(n: int, k: nat)
    ensures BigEndian(n, k + 3)[0] == BigEndian(n / 0x1_0000, k + 1)[0]
  {
    assert n / 256 / 256 == n / 0x1_0000;
    assert BigEndian(n, k + 3)[0] == BigEndian(n / 256, k + 2)[0];
  }

  /** The first of eight bytes is below 128 exactly when the number is below 2^63. */
  lemma {:induction false} TopByte(n: int)
    requires 0 <= n < 0x1_0000_0000_0000_0000
    ensures BigEndian(n, 8)[0] < 0x80 <==> n < 0x8000_0000_0000_0000
  {
    var a := n / 0x1_0000;
    var b := a / 0x1_0000;
    var c := b / 0x1_0000;
    FirstOfBigEndian(n, 5);
    FirstOfBigEndian(a, 3);
    FirstOfBigEndian(b, 1);
    assert BigEndian(c, 2)[0] == BigEndian(c / 256, 1)[0] == c / 256;
  }

  /** 256 to the power of k. */
  function Power(k: nat): (p: nat)
    ensures p > 0
  {
    if k == 0 then 1 else 256 * Power(k - 1)
  }

  /** The bytes of n by position: the i-th of k bytes counts multiples of 256 to the power of k - 1 - i. */
  lemma {:induction false} BigEndianAt(n: nat, k: nat, i: nat)
    requires i < k
    ensures BigEndian(n, k)[i] == n / Power(k - 1 - i) % 256
    decreases k
  {
    if i < k - 1 {
      BigEndianAt(n / 256, k - 1, i);
      Bits.DivideBy(n, 256, Power(k - 2 - i));
    }
  }

  lemma {:induction false} FitsBelow(n: int, k: nat)
    requires Fits(n, k)
    ensures 0 <= n < Power(k)
    decreases k
  {
    if k > 0 {
      FitsBelow(n / 256, k - 1);
    }
  }

  /** The number that s spells by position. */
  lemma {:induction false} UnsignedAt(s: seq<byte>)
    ensures Unsigned(s) < Power(|s|)
    ensures forall i :: 0 <= i < |s| ==> s[i] == Unsigned(s) / Power(|s| - 1 - i) % 256
  {
    BigEndianUnsigned(s);
    FitsBelow(Unsigned(s), |s|);
    forall i | 0 <= i < |s|
      ensures s[i] == Unsigned(s) / Power(|s| - 1 - i) % 256
    {
      BigEndianAt(Unsigned(s), |s|, i);
    }
  }

  lemma {:induction false} UnsignedOfTwo(s: seq<byte>)
    requires |s| == 2
    ensures Unsigned(s) == 256 * (s[0] as int) + s[1] as int
  {
    assert s[..1][..0] == [];
    assert Unsigned(s[..1]) == s[0];
  }

  lemma Associative<T>(a: seq<T>, b: seq<T>, c: seq<T>)
    ensures a + b + c == a + (b + c)
  {}

  /** The next k bytes after the first n ones. */
  lemma Taken(all: seq<byte>, n: nat, k: nat)
    requires n + k <= |all|
    ensures all[..n] + all[n..][..k] == all[..n + k] && all[n..][k..] == all[n + k..]
  {}

  lemma SliceInSlice(s: seq<byte>, lo: nat, hi: nat, k: nat)
    requires lo + k <= hi <= |s|
    ensures s[lo..hi][..k] == s[lo..lo + k] && s[lo..hi][k..] == s[lo + k..hi]
  {}

  // Slices of an array.

  lemma SliceOfSlice(a: array<byte>, lo: nat, hi: nat, n: nat)
    requires lo + n <= hi <= a.Length
    ensures a[lo..hi][..n] == a[lo..lo + n]
  {}

  lemma TwoSlices(a: array<byte>, lo: nat, l: nat, hi: nat)
    requires lo <= l <= hi <= a.Length
    ensures a[lo..hi] == a[lo..l] + a[l..hi]
  {}
}
