/** The table-driven UTF-8 automaton (msutil/utf8.go) against the grammar of section 4 of RFC 3629. */
module Utf8 {
  import opened Bytes

  // The grammar.

  predicate Tail(b: byte) { 0x80 <= b <= 0xBF }

  /** UTF8-char: the encoding of one character. */
  predicate Char(s: seq<byte>)
  {
    if |s| == 1 then s[0] <= 0x7F
    else if |s| == 2 then 0xC2 <= s[0] <= 0xDF && Tail(s[1])
    else if |s| == 3 then
      && ( || (s[0] == 0xE0 && 0xA0 <= s[1] <= 0xBF)
           || (0xE1 <= s[0] <= 0xEC && Tail(s[1]))
           || (s[0] == 0xED && 0x80 <= s[1] <= 0x9F)
           || (0xEE <= s[0] <= 0xEF && Tail(s[1])))
      && Tail(s[2])
    else if |s| == 4 then
      && ( || (s[0] == 0xF0 && 0x90 <= s[1] <= 0xBF)
           || (0xF1 <= s[0] <= 0xF3 && Tail(s[1]))
           || (s[0] == 0xF4 && 0x80 <= s[1] <= 0x8F))
      && Tail(s[2]) && Tail(s[3])
    else false
  }

  /** UTF8-octets: any number of characters. */
  predicate WellFormed(s: seq<byte>)
  {
    || s == []
    || (|s| >= 1 && Char(s[..1]) && WellFormed(s[1..]))
    || (|s| >= 2 && Char(s[..2]) && WellFormed(s[2..]))
    || (|s| >= 3 && Char(s[..3]) && WellFormed(s[3..]))
    || (|s| >= 4 && Char(s[..4]) && WellFormed(s[4..]))
  }

  /** The scalar value of one character: the free bits of its bytes, in order (section 3 of RFC 3629). */
  function ScalarValue(s: seq<byte>): nat
    requires Char(s)
  {
    var a: int := s[0];
    if |s| == 1 then a
    else
      var b: int := s[1] - 0x80;
      if |s| == 2 then (a - 0xC0) * 0x40 + b
      else
        var c: int := s[2] - 0x80;
        if |s| == 3 then (a - 0xE0) * 0x1000 + b * 0x40 + c
        else (a - 0xF0) * 0x4_0000 + b * 0x1000 + c * 0x40 + (s[3] - 0x80)
  }

  /** A character is the shortest encoding of its scalar value, and surrogates have none. */
  lemma ScalarValueRange(s: seq<byte>)
    requires Char(s)
    ensures var v := ScalarValue(s);
            && (|s| == 1 <==> v < 0x80)
            && (|s| == 2 <==> 0x80 <= v < 0x800)
            && (|s| == 3 <==> 0x800 <= v < 0x1_0000)
            && (|s| == 4 <==> 0x1_0000 <= v < 0x11_0000)
            && !(0xD800 <= v < 0xE000)
  {}

  /** The UTF-8 encoding of a scalar value, by the table in section 3 of RFC 3629. */
  function Encoding(v: nat): (s: seq<byte>)
    requires v < 0x11_0000
  {
    var a, b, c := v / 0x40, v / 0x40 / 0x40, v / 0x40 / 0x40 / 0x40;
    if v < 0x80 then [v]
    else if v < 0x800 then [0xC0 + a, 0x80 + v % 0x40]
    else if v < 0x1_0000 then [0xE0 + b, 0x80 + a % 0x40, 0x80 + v % 0x40]
    else [0xF0 + c, 0x80 + b % 0x40, 0x80 + a % 0x40, 0x80 + v % 0x40]
  }

  /** The characters of the grammar are exactly the encodings of the scalar values, which have no surrogates. */
  lemma {:induction false} CharIffEncoding(s: seq<byte>)
    ensures Char(s) <==> exists v: nat :: v < 0x11_0000 && !(0xD800 <= v < 0xE000) && s == Encoding(v)
  {
    if Char(s) {
      ScalarValueRange(s);
      EncodingOfScalar(s);
    }
    if v: nat :| v < 0x11_0000 && !(0xD800 <= v < 0xE000) && s == Encoding(v) {
      EncodingIsChar(v);
    }
  }

  lemma {:induction false} EncodingOfScalar(s: seq<byte>)
    requires Char(s)
    ensures ScalarValue(s) < 0x11_0000 && s == Encoding(ScalarValue(s))
  {
    ScalarValueRange(s);
    var v: nat := ScalarValue(s);
    if |s| == 2 {
      SixBits(v, s[0] as int - 0xC0, s[1] as int - 0x80);
    } else if |s| == 3 {
      var q: nat := (s[0] as int - 0xE0) * 0x40 + (s[1] as int - 0x80);
      SixBits(v, q, s[2] as int - 0x80);
      SixBits(q, s[0] as int - 0xE0, s[1] as int - 0x80);
    } else if |s| == 4 {
      var p: nat := (s[0] as int - 0xF0) * 0x40 + (s[1] as int - 0x80);
      var q: nat := p * 0x40 + (s[2] as int - 0x80);
      SixBits(v, q, s[3] as int - 0x80);
      SixBits(q, p, s[2] as int - 0x80);
      SixBits(p, s[0] as int - 0xF0, s[1] as int - 0x80);
    }
  }

  lemma SixBits(v: nat, q: nat, r: nat)
    requires v == 0x40 * q + r && r < 0x40
    ensures v / 0x40 == q && v % 0x40 == r
  {}

  lemma {:induction false} EncodingIsChar(v: nat)
    requires v < 0x11_0000 && !(0xD800 <= v < 0xE000)
    ensures Char(Encoding(v)) && ScalarValue(Encoding(v)) == v
  {
    var a := v / 0x40;
    var b := a / 0x40;
    var c := b / 0x40;
    SixBitsOf(v, a, b, c, v % 0x40, a % 0x40, b % 0x40);
  }

  /** The free bits of the bytes, put together. */
  lemma {:induction false} SixBitsOf(v: nat, a: nat, b: nat, c: nat, x: nat, y: nat, z: nat)
    requires v == 0x40 * a + x && a == 0x40 * b + y && b == 0x40 * c + z && x < 0x40 && y < 0x40 && z < 0x40
    requires v < 0x11_0000 && !(0xD800 <= v < 0xE000)
    ensures if v < 0x80 then true
            else if v < 0x800 then Char([0xC0 + a, 0x80 + x]) && ScalarValue([0xC0 + a, 0x80 + x]) == v
            else if v < 0x1_0000 then
              Char([0xE0 + b, 0x80 + y, 0x80 + x]) && ScalarValue([0xE0 + b, 0x80 + y, 0x80 + x]) == v
            else
              && Char([0xF0 + c, 0x80 + z, 0x80 + y, 0x80 + x])
              && ScalarValue([0xF0 + c, 0x80 + z, 0x80 + y, 0x80 + x]) == v
  {}

  // The automaton.

  const ACCEPT := 0
  const REJECT := 12

  function Repeat(b: byte, k: nat): (s: seq<byte>)
    ensures |s| == k && forall i :: 0 <= i < k ==> s[i] == b
  {
    seq(k, i => b)
  }

  /** The first part of utf8d: the character class of each byte. */
  const CLASSES: seq<byte> :=
    Repeat(0, 128)
    + (Repeat(1, 16) + Repeat(9, 16))
    + Repeat(7, 32)
    + (Repeat(8, 2) + Repeat(2, 30))
    + (([10] + Repeat(3, 12)) + ([4] + Repeat(3, 2)))
    + (([11] + Repeat(6, 3)) + ([5] + Repeat(8, 11)))

  const FROM_0: seq<byte> := [0, 12, 24, 36, 60, 96, 84, 12, 12, 12, 48, 72]
  const FROM_12: seq<byte> := [12, 12, 12, 12, 12, 12, 12, 12, 12, 12, 12, 12]
  const FROM_24: seq<byte> := [12, 0, 12, 12, 12, 12, 12, 0, 12, 0, 12, 12]
  const FROM_36: seq<byte> := [12, 24, 12, 12, 12, 12, 12, 24, 12, 24, 12, 12]
  const FROM_48: seq<byte> := [12, 12, 12, 12, 12, 12, 12, 24, 12, 12, 12, 12]
  const FROM_60: seq<byte> := [12, 24, 12, 12, 12, 12, 12, 12, 12, 24, 12, 12]
  const FROM_72: seq<byte> := [12, 12, 12, 12, 12, 12, 12, 36, 12, 36, 12, 12]
  const FROM_84: seq<byte> := [12, 36, 12, 12, 12, 12, 12, 36, 12, 36, 12, 12]
  const FROM_96: seq<byte> := [12, 36, 12, 12, 12, 12, 12, 12, 12, 12, 12, 12]

  /** The second part of utf8d: the next state for a state and a character class. */
  const TRANSITIONS: seq<byte> :=
    FROM_0 + FROM_12 + FROM_24 + FROM_36 + FROM_48 + FROM_60 + FROM_72 + FROM_84 + FROM_96

  const UTF8D: seq<byte> := CLASSES + TRANSITIONS

  /** The class of each byte, as the ranges that the table spells out. */
  function Class(b: byte): byte
  {
    if b < 0x80 then 0
    else if b < 0x90 then 1
    else if b < 0xA0 then 9
    else if b < 0xC0 then 7
    else if b < 0xC2 then 8
    else if b < 0xE0 then 2
    else if b == 0xE0 then 10
    else if b < 0xED then 3
    else if b == 0xED then 4
    else if b < 0xF0 then 3
    else if b == 0xF0 then 11
    else if b < 0xF4 then 6
    else if b == 0xF4 then 5
    else 8
  }

  lemma TableOfClasses(b: byte)
    ensures |UTF8D| == 364 && UTF8D[b] == Class(b)
  {}

  predicate IsState(s: nat)
  {
    s == 0 || s == 12 || s == 24 || s == 36 || s == 48 || s == 60 || s == 72 || s == 84 || s == 96
  }

  /** The row of the transition table for a state. */
  function Row(s: nat): (r: seq<byte>)
    ensures |r| == 12
  {
    if s == 0 then FROM_0 else if s == 12 then FROM_12 else if s == 24 then FROM_24
    else if s == 36 then FROM_36 else if s == 48 then FROM_48 else if s == 60 then FROM_60
    else if s == 72 then FROM_72 else if s == 84 then FROM_84 else FROM_96
  }

  /** Where each state goes: how many continuation bytes it still needs, and in which range the next one is. */
  function Expected(s: nat, b: byte): byte
  {
    if s == 0 then
      if b <= 0x7F then 0
      else if 0xC2 <= b <= 0xDF then 24
      else if b == 0xE0 then 48
      else if b == 0xED then 60
      else if 0xE1 <= b <= 0xEF then 36
      else if b == 0xF0 then 72
      else if 0xF1 <= b <= 0xF3 then 84
      else if b == 0xF4 then 96
      else 12
    else if s == 24 && Tail(b) then 0
    else if s == 36 && Tail(b) then 24
    else if s == 48 && 0xA0 <= b <= 0xBF then 24
    else if s == 60 && 0x80 <= b <= 0x9F then 24
    else if s == 72 && 0x90 <= b <= 0xBF then 36
    else if s == 84 && Tail(b) then 36
    else if s == 96 && 0x80 <= b <= 0x8F then 36
    else 12
  }

  lemma TableOfTransitions(s: nat, t: nat)
    requires IsState(s) && t < 12
    ensures 256 + s + t < |UTF8D|
    ensures UTF8D[256 + s + t] == Row(s)[t]
  {}

  lemma {:induction false} RowOfStates(s: nat, t: nat)
    requires t < 12
    ensures IsState(Row(s)[t])
  {
    assert t == 0 || t == 1 || t == 2 || t == 3 || t == 4 || t == 5
        || t == 6 || t == 7 || t == 8 || t == 9 || t == 10 || t == 11;
  }

  /** The two uint32 values that UTF8Reader carries from byte to byte. */
  datatype Dfa = Dfa(state: nat, codep: nat)

  const START := Dfa(ACCEPT, 0)

  /** 0xff >> t & b */
  function LeadBits(b: byte, t: nat): nat
  {
    if t >= 8 then 0 else b % [256, 128, 64, 32, 16, 8, 4, 2][t]
  }

  /** decode: (b & 0x3f) and (codep << 6) do not overlap, so or-ing them adds them. */
  function Decode(d: Dfa, b: byte): (r: Dfa)
    requires IsState(d.state)
    ensures IsState(r.state)
  {
    TableOfClasses(b);
    var t: nat := UTF8D[b];
    TableOfTransitions(d.state, t);
    RowOfStates(d.state, t);
    var codep := if d.state != ACCEPT then b % 0x40 + d.codep * 0x40 % 0x1_0000_0000 else LeadBits(b, t);
    Dfa(UTF8D[256 + d.state + t], codep)
  }

  lemma {:induction false} DecodeState(d: Dfa, b: byte)
    requires IsState(d.state)
    ensures Decode(d, b).state == Expected(d.state, b)
  {
    TableOfClasses(b);
    TableOfTransitions(d.state, Class(b));
    RowExpects(d.state, b);
  }

  lemma RowExpects(s: nat, b: byte)
    requires IsState(s)
    ensures Class(b) < 12 && Row(s)[Class(b)] == Expected(s, b)
  {}

  function Run(d: Dfa, s: seq<byte>): (r: Dfa)
    requires IsState(d.state)
    ensures IsState(r.state)
    decreases s
  {
    if s == [] then d else Run(Decode(d, s[0]), s[1..])
  }

  lemma {:induction false} RunConcat(d: Dfa, s: seq<byte>, t: seq<byte>)
    requires IsState(d.state)
    ensures Run(d, s + t) == Run(Run(d, s), t)
    decreases s
  {
    hide Decode;
    if s == [] {
      assert s + t == t;
    } else {
      RunConcat(Decode(d, s[0]), s[1..], t);
      assert (s + t)[1..] == s[1..] + t;
    }
  }

  /** Reject is absorbing. */
  lemma {:induction false} RejectIsForGood(d: Dfa, s: seq<byte>)
    requires d.state == REJECT
    ensures Run(d, s).state == REJECT
    decreases s
  {
    hide Decode;
    if s != [] {
      DecodeState(d, s[0]);
      RejectIsForGood(Decode(d, s[0]), s[1..]);
    }
  }

  /** One step of a run from position k of s. */
  lemma {:induction false} RunStep(d: Dfa, s: seq<byte>, k: nat)
    requires IsState(d.state) && k < |s|
    ensures Run(d, s[k..]) == Run(Decode(d, s[k]), s[k + 1..])
  {
    hide Decode;
    assert s[k..][1..] == s[k + 1..];
  }

  /** The automaton runs over one character from accept to accept, and then codep is its scalar value. */
  lemma {:induction false} CharRuns(d: Dfa, c: seq<byte>)
    requires d.state == ACCEPT && Char(c)
    ensures Run(d, c) == Dfa(ACCEPT, ScalarValue(c))
  {
    hide Decode, Run, LeadBits, Class;
    assert c[0..] == c && c[|c|..] == [];
    RunStep(d, c, 0);
    DecodeLead(d, c[0]);
    LeadBitsOfChar(c);
    var e := Decode(d, c[0]);
    if |c| > 1 {
      RunStep(e, c, 1);
      DecodeTail(e, c[1]);
      e := Decode(e, c[1]);
    }
    if |c| > 2 {
      RunStep(e, c, 2);
      DecodeTail(e, c[2]);
      e := Decode(e, c[2]);
    }
    if |c| > 3 {
      RunStep(e, c, 3);
      DecodeTail(e, c[3]);
      e := Decode(e, c[3]);
    }
    RunNothing(e);
  }

  lemma LeadBitsOfChar(c: seq<byte>)
    requires Char(c)
    ensures LeadBits(c[0], Class(c[0]))
         == c[0] - (if |c| == 1 then 0 else if |c| == 2 then 0xC0 else if |c| == 3 then 0xE0 else 0xF0)
  {}

  lemma {:induction false} DecodeTail(d: Dfa, b: byte)
    requires IsState(d.state) && d.state != ACCEPT && Tail(b) && d.codep < 0x1_0000
    ensures Decode(d, b).state == Expected(d.state, b)
    ensures Decode(d, b).codep == d.codep * 0x40 + (b - 0x80)
  {
    DecodeNext(d, b);
  }

  lemma RunNothing(d: Dfa)
    requires IsState(d.state)
    ensures Run(d, []) == d
  {}

  lemma {:induction false} DecodeLead(d: Dfa, b: byte)
    requires d.state == ACCEPT
    ensures Decode(d, b).state == Expected(ACCEPT, b)
    ensures Decode(d, b).codep == LeadBits(b, Class(b))
  {
    TableOfClasses(b);
    DecodeState(d, b);
  }

  lemma {:induction false} DecodeNext(d: Dfa, b: byte)
    requires IsState(d.state) && d.state != ACCEPT
    ensures Decode(d, b) == Dfa(Expected(d.state, b), b % 0x40 + d.codep * 0x40 % 0x1_0000_0000)
  {
    DecodeState(d, b);
  }

  /** A nonempty string that the automaton accepts starts with a character. */
  lemma {:induction false} FirstChar(d: Dfa, s: seq<byte>) returns (k: nat)
    requires d.state == ACCEPT && s != [] && Run(d, s).state == ACCEPT
    ensures 1 <= k <= |s| && k <= 4 && Char(s[..k])
    ensures Run(d, s) == Run(Dfa(ACCEPT, ScalarValue(s[..k])), s[k..])
  {
    hide Decode;
    k := 1;
    var e := Decode(d, s[0]);
    DecodeLead(d, s[0]);
    while e.state != ACCEPT
      invariant 1 <= k <= |s| && k <= 4 && IsState(e.state) && Run(d, s) == Run(e, s[k..])
      invariant Partial(s[..k], e.state)
      decreases 4 - k
    {
      if e.state == REJECT {
        RejectIsForGood(e, s[k..]);
      }
      assert s[k..] != [];
      DecodeNext(e, s[k]);
      if Expected(e.state, s[k]) == REJECT {
        RejectIsForGood(Decode(e, s[k]), s[k..][1..]);
      }
      assert s[k..][1..] == s[k + 1..];
      e := Decode(e, s[k]);
      k := k + 1;
    }
    RunConcat(d, s[..k], s[k..]);
    assert s == s[..k] + s[k..];
    CharRuns(d, s[..k]);
  }

  /** What state the automaton is in after the bytes s of an unfinished character. */
  predicate Partial(s: seq<byte>, state: nat)
  {
    if state == ACCEPT then Char(s)
    else if |s| == 1 then state == Expected(ACCEPT, s[0])
    else if |s| == 2 then
      || (state == 24 && 0xE0 <= s[0] <= 0xEF && Expected(Expected(ACCEPT, s[0]), s[1]) == 24)
      || (state == 36 && 0xF0 <= s[0] <= 0xF4 && Expected(Expected(ACCEPT, s[0]), s[1]) == 36)
    else if |s| == 3 then
      state == 24 && 0xF0 <= s[0] <= 0xF4 && Expected(Expected(ACCEPT, s[0]), s[1]) == 36 && Tail(s[2])
    else false
  }

  /** The automaton accepts exactly the grammar, from any codep. */
  lemma {:induction false} AcceptsTheGrammar(d: Dfa, s: seq<byte>)
    requires d.state == ACCEPT
    ensures Run(d, s).state == ACCEPT <==> WellFormed(s)
    decreases s
  {
    hide Decode, Char;
    if s != [] && Run(d, s).state == ACCEPT {
      var k := FirstChar(d, s);
      AcceptsTheGrammar(Dfa(ACCEPT, ScalarValue(s[..k])), s[k..]);
      assert Char(s[..k]) && WellFormed(s[k..]);
    }
    if s != [] && WellFormed(s) {
      var k :| 1 <= k <= |s| && k <= 4 && Char(s[..k]) && WellFormed(s[k..]);
      CharRuns(d, s[..k]);
      AcceptsTheGrammar(Run(d, s[..k]), s[k..]);
      RunConcat(d, s[..k], s[k..]);
      assert s == s[..k] + s[k..];
    }
  }

  /**
   * At each accept, codep is the scalar value of the character that has just been completed, which is its
   * shortest encoding and no surrogate.
   */
  lemma {:induction false} CodepIsScalarValue(d: Dfa, s: seq<byte>) returns (k: nat)
    requires d.state == ACCEPT && s != [] && Run(d, s).state == ACCEPT
    ensures k < |s| && WellFormed(s[..k]) && Char(s[k..])
    ensures var v := Run(d, s).codep;
            && v == ScalarValue(s[k..]) && v < 0x11_0000 && !(0xD800 <= v < 0xE000)
            && |s| - k == if v < 0x80 then 1 else if v < 0x800 then 2 else if v < 0x1_0000 then 3 else 4
    decreases s
  {
    hide Decode, Char;
    var j := FirstChar(d, s);
    if j == |s| {
      k := 0;
      assert s[..j] == s == s[0..];
      ScalarValueRange(s);
    } else {
      var e := Dfa(ACCEPT, ScalarValue(s[..j]));
      var i := CodepIsScalarValue(e, s[j..]);
      k := j + i;
      assert s[j..][i..] == s[k..];
      assert s[..k][..j] == s[..j] && s[..k][j..] == s[j..][..i];
    }
  }

  /** A shortest way back to accept. */
  function Completion(state: nat): seq<byte>
  {
    if state == 24 then [0x80]
    else if state == 36 || state == 60 then [0x80, 0x80]
    else if state == 48 then [0xA0, 0x80]
    else if state == 72 then [0x90, 0x80, 0x80]
    else if state == 84 || state == 96 then [0x80, 0x80, 0x80]
    else []
  }

  lemma {:induction false} CompletionAccepts(d: Dfa)
    requires IsState(d.state) && d.state != REJECT
    ensures Run(d, Completion(d.state)).state == ACCEPT
  {
    hide Decode, Run;
    var t := Completion(d.state);
    assert t[0..] == t;
    var e := d;
    if |t| > 0 {
      RunStep(e, t, 0);
      DecodeNext(e, t[0]);
      e := Decode(e, t[0]);
    }
    if |t| > 1 {
      RunStep(e, t, 1);
      DecodeNext(e, t[1]);
      e := Decode(e, t[1]);
    }
    if |t| > 2 {
      RunStep(e, t, 2);
      DecodeNext(e, t[2]);
      e := Decode(e, t[2]);
    }
    assert t[|t|..] == [];
    RunNothing(e);
  }

  /** The automaton has not rejected exactly when what it has read can still become well-formed. */
  lemma {:induction false} RejectsHopeless(s: seq<byte>)
    ensures Run(START, s).state != REJECT <==> exists t :: WellFormed(s + t)
  {
    hide Decode, WellFormed;
    var d := Run(START, s);
    if d.state != REJECT {
      var t := Completion(d.state);
      CompletionAccepts(d);
      RunConcat(START, s, t);
      AcceptsTheGrammar(START, s + t);
    }
    if exists t :: WellFormed(s + t) {
      var t :| WellFormed(s + t);
      AcceptsTheGrammar(START, s + t);
      RunConcat(START, s, t);
      if d.state == REJECT {
        RejectIsForGood(d, t);
      }
    }
  }
}
