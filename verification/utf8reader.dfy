/** UTF8Reader: an io.Reader that runs the automaton over every byte it passes on (msutil/utf8.go). */
module TextReader {
  import opened Bytes
  import opened Frame
  import opened Stream
  import opened Utf8

  /** The length of the longest nonempty prefix of s after which the automaton accepts, or 0. */
  function LastAccept(d: Dfa, s: seq<byte>): (n: nat)
    requires IsState(d.state)
    ensures n <= |s|
    ensures n > 0 ==> Run(d, s[..n]).state == ACCEPT
    decreases s
  {
    if s == [] then 0
    else if Run(d, s).state == ACCEPT then
      assert s[..|s|] == s;
      |s|
    else
      var n := LastAccept(d, s[..|s| - 1]);
      assert s[..|s| - 1][..n] == s[..n];
      n
  }

  /** No longer prefix is accepted. */
  lemma {:induction false} LastAcceptIsLast(d: Dfa, s: seq<byte>, k: nat)
    requires IsState(d.state) && LastAccept(d, s) < k <= |s|
    ensures Run(d, s[..k]).state != ACCEPT
    decreases |s|
  {
    hide Run;
    if k < |s| {
      LastAcceptIsLast(d, s[..|s| - 1], k);
      assert s[..|s| - 1][..k] == s[..k];
    } else {
      assert s[..k] == s;
    }
  }

  /** One more byte. */
  lemma {:induction false} Snoc(d: Dfa, s: seq<byte>, k: nat)
    requires IsState(d.state) && k < |s|
    ensures Run(d, s[..k + 1]) == Decode(Run(d, s[..k]), s[k])
    ensures LastAccept(d, s[..k + 1])
         == if Run(d, s[..k + 1]).state == ACCEPT then k + 1 else LastAccept(d, s[..k])
  {
    hide Decode;
    assert s[..k + 1] == s[..k] + [s[k]];
    RunConcat(d, s[..k], [s[k]]);
    assert Run(Run(d, s[..k]), [s[k]]) == Decode(Run(d, s[..k]), s[k]);
    assert s[..k + 1][..k] == s[..k];
  }

  /** After a rejection nothing more is accepted. */
  lemma {:induction false} RejectedPrefix(d: Dfa, s: seq<byte>, k: nat)
    requires IsState(d.state) && k <= |s| && Run(d, s[..k]).state == REJECT
    ensures Run(d, s).state == REJECT && LastAccept(d, s) == LastAccept(d, s[..k])
    decreases |s|
  {
    hide Decode;
    assert s == s[..k] + s[k..];
    RunConcat(d, s[..k], s[k..]);
    RejectIsForGood(Run(d, s[..k]), s[k..]);
    if k < |s| {
      assert s[..|s| - 1][..k] == s[..k];
      RejectedPrefix(d, s[..|s| - 1], k);
    } else {
      assert s[..k] == s;
    }
  }

  class UTF8Reader {
    var source: Option<Input>
    var accepted: nat
    var dfa: Dfa

    constructor ()
      ensures source == None && accepted == 0 && dfa == START
    {
      source, accepted, dfa := None, 0, START;
    }

    predicate Valid()
      reads this
    {
      dfa.state == ACCEPT
    }

    /**
     * Passes on what the source delivers; c is what it delivered. Once the automaton rejects,
     * only the bytes up to the last accept are reported, with ErrInvalidUTF8.
     */
    method Read(p: array<byte>, lo: nat, hi: nat) returns (n: nat, err: Error, ghost c: seq<byte>)
      requires source.Some? && this !in source.value.Objects()
      requires IsState(dfa.state) && lo <= hi <= p.Length
      modifies this, source.value.Objects(), p
      ensures source == old(source) && IsState(dfa.state)
      ensures var src := source.value;
              && |c| <= hi - lo && |c| <= |old(src.Left())|
              && (lo < hi && old(src.Left()) != [] ==> c != [])
              && c == old(src.Left())[..|c|] && src.Left() == old(src.Left())[|c|..]
              && src.Limit().R.data == old(src.Limit().R.data)[|c|..] && src.Limit().N == old(src.Limit().N) - |c|
              && (src.Unmasking? ==> src.cipher.mask == old(src.cipher.mask))
              && (err == EOF ==> src.Left() == [])
              && (c == [] && src.Left() == [] && lo < hi ==> err == EOF)
      ensures n <= |c| && p[lo..lo + n] == c[..n]
      ensures forall k :: 0 <= k < p.Length && !(lo <= k < hi) ==> p[k] == old(p[k])
      ensures var d := Run(old(dfa), c);
              if d.state == REJECT && c != [] then
                err == InvalidUTF8 && n == LastAccept(old(dfa), c) && dfa.state == REJECT
              else
                (err == Nil || err == EOF) && n == |c| && dfa == d && accepted == LastAccept(old(dfa), c)
    {
      hide Decode, LastAccept, Run, Input.Left;
      n, err, c := ReadSource(p, lo, hi);
      var m, ok := Scan(p, lo, lo + n);
      if !ok {
        return m, InvalidUTF8, c;
      }
    }

    /** The bytes c that the source delivers. */
    method ReadSource(p: array<byte>, lo: nat, hi: nat) returns (n: nat, err: Error, ghost c: seq<byte>)
      requires source.Some? && this !in source.value.Objects() && lo <= hi <= p.Length
      modifies source.value.Objects(), p
      ensures n == |c| <= hi - lo && p[lo..lo + n] == c && (err == Nil || err == EOF)
      ensures forall k :: 0 <= k < p.Length && !(lo <= k < hi) ==> p[k] == old(p[k])
      ensures var src := source.value;
              && |c| <= |old(src.Left())|
              && (lo < hi && old(src.Left()) != [] ==> c != [])
              && c == old(src.Left())[..|c|] && src.Left() == old(src.Left())[|c|..]
              && src.Limit().R.data == old(src.Limit().R.data)[|c|..] && src.Limit().N == old(src.Limit().N) - |c|
              && (src.Unmasking? ==> src.cipher.mask == old(src.cipher.mask))
              && (err == EOF ==> src.Left() == [])
              && (c == [] && src.Left() == [] && lo < hi ==> err == EOF)
    {
      hide Input.Left;
      n, err := source.value.Read(p, lo, hi);
      c := p[lo..lo + n];
    }

    /** The loop of Read over the bytes p[lo..hi] just read; false when it meets an invalid sequence. */
    method Scan(p: array<byte>, lo: nat, hi: nat) returns (accepted: nat, ok: bool)
      requires IsState(dfa.state) && lo <= hi <= p.Length
      modifies this`accepted, this`dfa
      ensures IsState(dfa.state) && accepted <= hi - lo && p[lo..lo + accepted] == p[lo..hi][..accepted]
      ensures var c := p[lo..hi]; var d := Run(old(dfa), c);
              && accepted == LastAccept(old(dfa), c)
              && ok == !(d.state == REJECT && c != [])
              && (if ok then dfa == d && this.accepted == accepted else dfa.state == REJECT)
    {
      hide Decode, LastAccept, Run;
      ghost var c := p[lo..hi];
      accepted, ok := 0, true;
      var d := dfa;
      ghost var d0 := d;
      NothingYet(d0);
      for i := lo to hi
        invariant dfa == d0
        invariant d == Run(d0, c[..i - lo]) && IsState(d.state)
        invariant accepted == LastAccept(d0, c[..i - lo])
        invariant d.state == REJECT ==> i == lo
      {
        Snoc(d0, c, i - lo);
        DecodeState(d, p[i]);
        d := Decode(d, p[i]);
        if d.state == REJECT {
          RejectedPrefix(d0, c, i - lo + 1);
          dfa := dfa.(state := REJECT);
          SliceOfSlice(p, lo, hi, accepted);
          return accepted, false;
        }
        if d.state == ACCEPT {
          accepted := i - lo + 1;
        }
      }
      assert c[..hi - lo] == c;
      SliceOfSlice(p, lo, hi, accepted);
      dfa := d;
      this.accepted := accepted;
    }
  }

  lemma NothingYet(d: Dfa)
    requires IsState(d.state)
    ensures Run(d, []) == d && LastAccept(d, []) == 0
  {}
}
