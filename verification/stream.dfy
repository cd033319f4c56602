/** Readers and writers: the transport, io.LimitedReader, and the masking wrappers of msutil/cipher.go. */
module Stream {
  import opened Bytes
  import opened Masking

  /** Any io.Reader that ends with EOF: it delivers data in nonempty chunks of its own choosing. */
  class Source {
    var data: seq<byte>   // not delivered yet
    const eager: bool     // reports EOF along with the last bytes, rather than on the next call

    constructor (data: seq<byte>, eager: bool)
      ensures this.data == data && this.eager == eager
    {
      this.data, this.eager := data, eager;
    }

    /** Reads into p[lo..hi]; the part of it beyond the n bytes read may be scribbled over. */
    method Read(p: array<byte>, lo: nat, hi: nat) returns (n: nat, err: Error)
      requires lo <= hi <= p.Length
      modifies this`data, p
      ensures n <= hi - lo && n <= |old(data)|
      ensures lo < hi && old(data) != [] ==> n > 0
      ensures p[lo..lo + n] == old(data[..n]) && data == old(data[n..])
      ensures forall k :: 0 <= k < p.Length && !(lo <= k < hi) ==> p[k] == old(p[k])
      ensures err == if data == [] && (n == 0 || eager) then EOF else Nil
    {
      if lo == hi || data == [] {
        n := 0;
      } else {
        n :| 1 <= n <= hi - lo && n <= |data|;
      }
      forall k | 0 <= k < n {
        p[lo + k] := data[k];
      }
      data := data[n..];
      err := if data == [] && (n == 0 || eager) then EOF else Nil;
    }
  }

  /** Any io.Writer: a write may fail after taking a part of the bytes, unless the destination is reliable. */
  class Sink {
    var out: seq<byte>   // everything received
    const reliable: bool

    constructor (reliable: bool)
      ensures out == [] && this.reliable == reliable
    {
      out, this.reliable := [], reliable;
    }

    method Write(p: seq<byte>) returns (n: nat, err: Error)
      modifies this`out
      ensures n <= |p| && out == old(out) + p[..n]
      ensures err == Nil ==> n == |p|
      ensures err == Nil || (err == WriteFailed && !reliable)
    {
      n, err := |p|, Nil;
      if !reliable {
        n :| 0 <= n <= |p|;
        if n < |p| {
          err := WriteFailed;
        } else {
          err :| err == Nil || err == WriteFailed;
        }
      }
      out := out + p[..n];
    }
  }

  /** Go's copy, from src[slo..shi] to dst[dlo..dhi]; the two may be the same array. */
  method Copy(dst: array<byte>, dlo: nat, dhi: nat, src: array<byte>, slo: nat, shi: nat) returns (n: nat)
    requires dlo <= dhi <= dst.Length && slo <= shi <= src.Length
    modifies dst
    ensures n == if dhi - dlo <= shi - slo then dhi - dlo else shi - slo
    ensures dst[dlo..dlo + n] == old(src[slo..slo + n])
    ensures forall k :: 0 <= k < dst.Length && !(dlo <= k < dlo + n) ==> dst[k] == old(dst[k])
  {
    n := if dhi - dlo <= shi - slo then dhi - dlo else shi - slo;
    forall k | 0 <= k < n {
      dst[dlo + k] := src[slo + k];
    }
  }

  /** io.ReadFull on a transport. */
  method ReadFull(r: Source, p: array<byte>, lo: nat, hi: nat) returns (n: nat, err: Error)
    requires lo <= hi <= p.Length
    modifies r`data, p
    ensures n == if hi - lo <= |old(r.data)| then hi - lo else |old(r.data)|
    ensures p[lo..lo + n] == old(r.data[..n]) && r.data == old(r.data[n..])
    ensures forall k :: 0 <= k < p.Length && !(lo <= k < hi) ==> p[k] == old(p[k])
    ensures err == if n == hi - lo then Nil else if n == 0 then EOF else UnexpectedEOF
  {
    n, err := 0, Nil;
    ghost var all := r.data;
    while n < hi - lo && err == Nil
      invariant n <= hi - lo && n <= |all|
      invariant p[lo..lo + n] == all[..n] && r.data == all[n..]
      invariant forall k :: 0 <= k < p.Length && !(lo <= k < hi) ==> p[k] == old(p[k])
      invariant err == Nil || (err == EOF && r.data == [])
      decreases |r.data|, if err == Nil then 1 else 0
    {
      var nn;
      nn, err := ReadMore(r, p, lo, n, hi, all);
      n := n + nn;
    }
    if n >= hi - lo {
      err := Nil;
    } else if n > 0 && err == EOF {
      err := UnexpectedEOF;
    }
  }

  /** One more Read behind the first n bytes. */
  method ReadMore(r: Source, p: array<byte>, lo: nat, n: nat, hi: nat, ghost all: seq<byte>) returns (nn: nat,
      err: Error)
    requires lo + n < hi <= p.Length && n <= |all| && p[lo..lo + n] == all[..n] && r.data == all[n..]
    modifies r`data, p
    ensures n + nn <= hi - lo && n + nn <= |all| && p[lo..lo + n + nn] == all[..n + nn] && r.data == all[n + nn..]
    ensures forall k :: 0 <= k < p.Length && !(lo <= k < hi) ==> p[k] == old(p[k])
    ensures (err == Nil ==> nn > 0 || old(r.data) == []) && (nn == 0 && old(r.data) == [] ==> err == EOF)
    ensures err == Nil || (err == EOF && r.data == [])
  {
    ghost var before := p[lo..lo + n];
    nn, err := r.Read(p, lo + n, hi);
    assert p[lo..lo + n] == before;
    TwoSlices(p, lo, lo + n, lo + n + nn);
    Taken(all, n, nn);
  }

  /** io.LimitedReader: at most the next N bytes of R. */
  class LimitedReader {
    const R: Source
    var N: nat

    constructor (r: Source, n: nat)
      ensures R == r && N == n
    {
      R, N := r, n;
    }

    /** The bytes this reader will deliver. */
    ghost function Left(): seq<byte>
      reads this, R
    {
      R.data[..if N <= |R.data| then N else |R.data|]
    }

    method Read(p: array<byte>, lo: nat, hi: nat) returns (n: nat, err: Error)
      requires lo <= hi <= p.Length
      modifies this`N, R`data, p
      ensures n <= hi - lo && n <= |old(Left())|
      ensures lo < hi && old(Left()) != [] ==> n > 0
      ensures p[lo..lo + n] == old(Left())[..n] && Left() == old(Left())[n..]
      ensures R.data == old(R.data)[n..] && N == old(N) - n
      ensures forall k :: 0 <= k < p.Length && !(lo <= k < hi) ==> p[k] == old(p[k])
      ensures err == Nil || (err == EOF && Left() == [])
      ensures n == 0 && Left() == [] && lo < hi ==> err == EOF
    {
      if N <= 0 {
        return 0, EOF;
      }
      n, err := R.Read(p, lo, if hi - lo > N then lo + N else hi);
      N := N - n;
    }
  }

  /** Applies the mask to everything read from r. */
  class CipherReader {
    const r: LimitedReader
    var mask: Mask
    var pos: nat

    constructor (r: LimitedReader, mask: Mask)
      ensures this.r == r && this.mask == mask && pos == 0
    {
      this.r, this.mask, pos := r, mask, 0;
    }

    method Reset(mask: Mask)
      modifies this
      ensures this.mask == mask && pos == 0
    {
      this.mask, pos := mask, 0;
    }

    /** The bytes this reader will deliver. */
    ghost function Left(): seq<byte>
      reads this, r, r.R
    {
      Masked(r.Left(), mask, pos)
    }

    lemma AtStart()
      ensures pos == 0 ==> Left() == Masked(r.Left(), mask, 0)
    {}

    method Read(p: array<byte>, lo: nat, hi: nat) returns (n: nat, err: Error)
      requires lo <= hi <= p.Length
      modifies this`pos, r`N, r.R`data, p
      ensures n <= hi - lo && n <= |old(Left())|
      ensures lo < hi && old(Left()) != [] ==> n > 0
      ensures p[lo..lo + n] == old(Left())[..n] && Left() == old(Left())[n..]
      ensures r.R.data == old(r.R.data)[n..] && r.N == old(r.N) - n
      ensures forall k :: 0 <= k < p.Length && !(lo <= k < hi) ==> p[k] == old(p[k])
      ensures err == Nil || (err == EOF && Left() == [])
      ensures n == 0 && Left() == [] && lo < hi ==> err == EOF
    {
      hide Masked, LimitedReader.Left;
      ghost var raw := r.Left();
      n, err := r.Read(p, lo, hi);
      assert r.Left() == raw[n..];
      Cipher(p, lo, lo + n, mask, pos);
      MaskedSplit(raw, n, mask, pos);
      pos := pos + n;
    }
  }

  /** The io.Reader of a frame's payload, with or without unmasking. */
  datatype Input = Plain(limited: LimitedReader) | Unmasking(cipher: CipherReader)
  {
    function Limit(): LimitedReader
    {
      if Plain? then limited else cipher.r
    }

    ghost function Objects(): set<object>
    {
      {Limit(), Limit().R} + if Plain? then {} else {cipher}
    }

    /** The payload bytes it will deliver. */
    ghost function Left(): seq<byte>
      reads Objects()
    {
      if Plain? then limited.Left() else cipher.Left()
    }

    method Read(p: array<byte>, lo: nat, hi: nat) returns (n: nat, err: Error)
      requires lo <= hi <= p.Length
      modifies Objects(), p
      ensures n <= hi - lo && n <= |old(Left())|
      ensures lo < hi && old(Left()) != [] ==> n > 0
      ensures p[lo..lo + n] == old(Left())[..n] && Left() == old(Left())[n..]
      ensures Limit().R.data == old(Limit().R.data)[n..] && Limit().N == old(Limit().N) - n
      ensures Unmasking? ==> cipher.mask == old(cipher.mask)
      ensures forall k :: 0 <= k < p.Length && !(lo <= k < hi) ==> p[k] == old(p[k])
      ensures err == Nil || (err == EOF && Left() == [])
      ensures n == 0 && Left() == [] && lo < hi ==> err == EOF
    {
      match this
      case Plain(l) => n, err := l.Read(p, lo, hi);
      case Unmasking(c) => n, err := c.Read(p, lo, hi);
    }
  }

  /** Reads all of a masked stream, in any chunks and with any buffers: it is the whole stream masked once. */
  method ReadMaskedStream(c: CipherReader) returns (out: seq<byte>)
    requires c.pos == 0
    modifies c, c.r, c.r.R
    ensures out == Masked(old(c.r.Left()), old(c.mask), 0)
  {
    hide Masked, LimitedReader.Left, CipherReader.Left;
    ghost var all := c.Left();
    c.AtStart();
    out := [];
    var err := Nil;
    while err == Nil
      invariant out + c.Left() == all
      invariant err == Nil || c.Left() == []
      invariant c.mask == old(c.mask)
      decreases |c.Left()|, if err == Nil then 1 else 0
    {
      var size: nat :| size > 0;
      var buf := new byte[size];
      var n;
      ghost var left := c.Left();
      n, err := c.Read(buf, 0, size);
      assert left == buf[0..n] + c.Left();
      out := out + buf[0..n];
    }
  }

  /** A masked copy of p[lo..hi]; a copy is needed to prevent corruption of caller data. */
  method MaskedCopy(p: array<byte>, lo: nat, hi: nat, mask: Mask, pos: nat) returns (cp: array<byte>)
    requires lo <= hi <= p.Length
    ensures fresh(cp) && cp[..] == Masked(p[lo..hi], mask, pos)
  {
    hide *;
    cp := new byte[hi - lo];
    var copied := Copy(cp, 0, cp.Length, p, lo, hi);
    Cipher(cp, 0, cp.Length, mask, pos);
    assert cp[..] == cp[0..cp.Length];
  }

  lemma {:induction false} SentSoFar(base: seq<byte>, accepted: seq<byte>, taken: seq<byte>, mask: Mask)
    ensures base + Masked(accepted, mask, 0) + Masked(taken, mask, |accepted|)
         == base + Masked(accepted + taken, mask, 0)
  {
    hide *;
    MaskedConcat(accepted, taken, mask, 0);
  }

  /** Sends p masked, without changing p; pos counts the bytes the destination has taken. */
  class CipherWriter {
    const w: Sink
    const mask: Mask
    var pos: nat
    ghost const base: seq<byte>       // what the destination held at first
    ghost var accepted: seq<byte>     // the plain bytes reported as written

    /** The destination holds the accepted bytes masked as one stream. */
    ghost predicate Valid()
      reads this, w
    {
      pos == |accepted| && w.out == base + Masked(accepted, mask, 0)
    }

    constructor (w: Sink, mask: Mask)
      ensures Valid() && this.w == w && this.mask == mask && accepted == []
    {
      this.w, this.mask, pos := w, mask, 0;
      base, accepted := w.out, [];
    }

    method Write(p: array<byte>, lo: nat, hi: nat) returns (n: nat, err: Error)
      requires Valid() && lo <= hi <= p.Length
      modifies this, w`out
      ensures Valid() && n <= hi - lo && accepted == old(accepted) + p[lo..lo + n]
      ensures err == Nil ==> n == hi - lo
    {
      hide Masked;
      ghost var plain := p[lo..hi];
      var cp := MaskedCopy(p, lo, hi, mask, pos);
      n, err := w.Write(cp[..]);
      ghost var taken := plain[..n];
      assert taken == p[lo..lo + n];
      MaskedSplit(plain, n, mask, pos);
      SentSoFar(base, accepted, taken, mask);
      pos := pos + n;
      accepted := accepted + taken;
    }
  }

  /** Short writes resumed from the unwritten remainder send the same bytes as one full write would. */
  method WriteResuming(c: CipherWriter, p: array<byte>, tries: nat) returns (n: nat)
    requires c.Valid() && c.accepted == []
    modifies c, c.w`out
    ensures n <= p.Length && c.w.out == old(c.w.out) + Masked(p[..n], c.mask, 0)
    ensures n == p.Length ==> c.w.out == old(c.w.out) + Masked(p[..], c.mask, 0)
  {
    n := 0;
    for i := 0 to tries
      invariant c.Valid() && n <= p.Length && c.accepted == p[..n]
    {
      var nn, _ := c.Write(p, n, p.Length);
      assert p[..n + nn] == p[..n] + p[n..n + nn];
      n := n + nn;
    }
    assert n == p.Length ==> p[..n] == p[..];
  }
}
