/** UTF-8 and UTF-16 as encodings.h encodes, decodes and validates them. */
module Encodings {
  import opened Options
  import opened JsonEvents
  import opened Texts

  predicate Bytes(s: Text) {
    forall i :: 0 <= i < |s| ==> s[i] < 256
  }

  lemma AtIndex(text: Text, i: nat, s: Text, k: nat)
    requires At(text, i, s) && k < |s|
    ensures i + k < |text| && text[i + k] == s[k] && Peek(text, i + k) == s[k]
  {
    assert text[i..i + |s|][k] == text[i + k];
  }

  // ----- Scalar values and their UTF-8 form -----

  /** A code point that is not half of a surrogate pair. */
  predicate IsScalarValue(c: nat) {
    c <= 0x10FFFF && !(0xD800 <= c <= 0xDFFF)
  }

  /** UTF8::Encode */
  function Encode(c: nat): Text
    requires c <= 0x10FFFF
  {
    if c <= 0x7F then [c]
    else if c <= 0x7FF then [0xC0 + c / 64, 0x80 + c % 64]
    else if c <= 0xFFFF then [0xE0 + c / 4096, 0x80 + c / 64 % 64, 0x80 + c % 64]
    else [0xF0 + c / 262144, 0x80 + c / 4096 % 64, 0x80 + c / 64 % 64, 0x80 + c % 64]
  }

  /** The encoded form of a scalar value stands at `i`. */
  ghost predicate Encoded(text: Text, i: nat, c: nat) {
    IsScalarValue(c) && At(text, i, Encode(c))
  }

  // ----- The grammar of RFC 3629, section 4 -----

  predicate Tail(c: nat) {
    0x80 <= c <= 0xBF
  }

  /** The second byte a first byte allows; the others only have to be tails. */
  predicate SecondByte(first: nat, c: nat) {
    Tail(c) && (first == 0xE0 ==> c >= 0xA0) && (first == 0xED ==> c <= 0x9F)
    && (first == 0xF0 ==> c >= 0x90) && (first == 0xF4 ==> c <= 0x8F)
  }

  /** Length of the sequence a first byte announces; 0 for a byte no sequence begins with. */
  function Announced(first: nat): (n: nat)
    ensures n <= 4
  {
    if first <= 0x7F then 1
    else if 0xC2 <= first <= 0xDF then 2
    else if 0xE0 <= first <= 0xEF then 3
    else if 0xF0 <= first <= 0xF4 then 4
    else 0
  }

  predicate IsSequence(text: Text, i: nat) {
    var n := Announced(Peek(text, i));
    && n > 0
    && (n > 1 ==> SecondByte(Peek(text, i), Peek(text, i + 1)))
    && (n > 2 ==> Tail(Peek(text, i + 2)))
    && (n > 3 ==> Tail(Peek(text, i + 3)))
  }

  /** The bits a sequence carries, six in every byte behind the first. */
  function Carried(text: Text, i: nat): nat {
    var n, b := Announced(Peek(text, i)), Peek(text, i);
    if n == 2 then b % 32 * 64 + Peek(text, i + 1) % 64
    else if n == 3 then (b % 16 * 64 + Peek(text, i + 1) % 64) * 64 + Peek(text, i + 2) % 64
    else if n == 4 then ((b % 8 * 64 + Peek(text, i + 1) % 64) * 64 + Peek(text, i + 2) % 64) * 64 + Peek(text, i + 3) % 64
    else b
  }

  /** The grammar describes exactly the encoded scalar values, and the bits carried are the value. */
  lemma GrammarIsEncoding(text: Text, i: nat)
    requires i < |text|
    ensures IsSequence(text, i) ==> Encoded(text, i, Carried(text, i)) && |Encode(Carried(text, i))| == Announced(text[i])
    ensures forall c :: Encoded(text, i, c) ==> IsSequence(text, i) && c == Carried(text, i)
  {
    if IsSequence(text, i) {
      CarriedIsEncoded(text, i);
    }
    forall c | Encoded(text, i, c) ensures IsSequence(text, i) && c == Carried(text, i) {
      EncodedIsCarried(text, i, c);
    }
  }

  /** Splitting a value into its six-bit digits and putting them together again. */
  lemma SixBits(h: nat, l: nat)
    requires l < 64
    ensures (h * 64 + l) / 64 == h && (h * 64 + l) % 64 == l
  {
  }

  lemma Shifts(c: nat)
    ensures c / 64 / 64 == c / 4096 && c / 4096 / 64 == c / 262144
    ensures c == c / 64 * 64 + c % 64
    ensures c / 64 == c / 4096 * 64 + c / 64 % 64
    ensures c / 4096 == c / 262144 * 64 + c / 4096 % 64
  {
  }

  lemma TwoBytes(a: nat, b: nat)
    requires Announced(a) == 2 && SecondByte(a, b)
    ensures var c := a % 32 * 64 + b % 64; 0x80 <= c <= 0x7FF && Encode(c) == [a, b]
  {
    SixBits(a % 32, b % 64);
  }

  lemma ThreeBytes(a: nat, b: nat, d: nat)
    requires Announced(a) == 3 && SecondByte(a, b) && Tail(d)
    ensures var c := (a % 16 * 64 + b % 64) * 64 + d % 64;
            0x800 <= c <= 0xFFFF && IsScalarValue(c) && Encode(c) == [a, b, d]
  {
    var h := a % 16 * 64 + b % 64;
    SixBits(a % 16, b % 64);
    SixBits(h, d % 64);
    Shifts(h * 64 + d % 64);
    assert a == 0xE0 + a % 16 && b == 0x80 + b % 64 && d == 0x80 + d % 64;
  }

  lemma FourBytes(a: nat, b: nat, d: nat, e: nat)
    requires Announced(a) == 4 && SecondByte(a, b) && Tail(d) && Tail(e)
    ensures var c := ((a % 8 * 64 + b % 64) * 64 + d % 64) * 64 + e % 64;
            0x10000 <= c <= 0x10FFFF && Encode(c) == [a, b, d, e]
  {
    hide Encode;
    var h, x, y, z := a - 0xF0, b - 0x80, d - 0x80, e - 0x80;
    LowDigits(h, x, y, z);
    SixBitDigits(h, x, y, z);
    var c := ((h * 64 + x) * 64 + y) * 64 + z;
    assert 0x10000 <= c <= 0x10FFFF;
    LongForm(c);
  }

  lemma LowDigits(h: nat, x: nat, y: nat, z: nat)
    requires h < 8 && x < 64 && y < 64 && z < 64
    ensures (0xF0 + h) % 8 == h && (0x80 + x) % 64 == x && (0x80 + y) % 64 == y && (0x80 + z) % 64 == z
  {
  }

  lemma LongForm(c: nat)
    requires 0xFFFF < c <= 0x10FFFF
    ensures Encode(c) == [0xF0 + c / 262144, 0x80 + c / 4096 % 64, 0x80 + c / 64 % 64, 0x80 + c % 64]
  {
  }

  lemma SixBitDigits(h: nat, x: nat, y: nat, z: nat)
    requires x < 64 && y < 64 && z < 64
    ensures var c := ((h * 64 + x) * 64 + y) * 64 + z;
            c / 262144 == h && c / 4096 % 64 == x && c / 64 % 64 == y && c % 64 == z
  {
    SixBits(h, x);
    SixBits(h * 64 + x, y);
    SixBits((h * 64 + x) * 64 + y, z);
    Shifts(((h * 64 + x) * 64 + y) * 64 + z);
  }

  lemma CarriedIsEncoded(text: Text, i: nat)
    requires i < |text| && IsSequence(text, i)
    ensures Encoded(text, i, Carried(text, i)) && |Encode(Carried(text, i))| == Announced(text[i])
  {
    hide Encode;
    var n := Announced(text[i]);
    assert i + n <= |text|;
    if n == 1 {
      OneByteIs(text[i]);
      assert text[i..i + 1] == [text[i]];
    } else if n == 2 {
      TwoBytes(text[i], text[i + 1]);
      assert text[i..i + 2] == [text[i], text[i + 1]];
    } else if n == 3 {
      ThreeBytes(text[i], text[i + 1], text[i + 2]);
      assert text[i..i + 3] == [text[i], text[i + 1], text[i + 2]];
    } else {
      FourBytes(text[i], text[i + 1], text[i + 2], text[i + 3]);
      assert text[i..i + 4] == [text[i], text[i + 1], text[i + 2], text[i + 3]];
    }
  }

  lemma OneByteIs(c: nat)
    requires c <= 0x7F
    ensures Encode(c) == [c]
  {
  }

  /** The encoded form is a sequence of the grammar, digit by digit. */
  lemma EncodeTwo(c: nat)
    requires 0x80 <= c <= 0x7FF
    ensures var a, b := 0xC0 + c / 64, 0x80 + c % 64;
            Announced(a) == 2 && SecondByte(a, b) && c == a % 32 * 64 + b % 64
  {
  }

  lemma EncodeThree(c: nat)
    requires 0x800 <= c <= 0xFFFF && IsScalarValue(c)
    ensures var a, b, d := 0xE0 + c / 4096, 0x80 + c / 64 % 64, 0x80 + c % 64;
            Announced(a) == 3 && SecondByte(a, b) && Tail(d) && c == (a % 16 * 64 + b % 64) * 64 + d % 64
  {
    Shifts(c);
    assert (0xE0 + c / 4096) % 16 == c / 4096;
  }

  lemma EncodeFour(c: nat)
    requires 0x10000 <= c <= 0x10FFFF
    ensures var a, b, d, e := 0xF0 + c / 262144, 0x80 + c / 4096 % 64, 0x80 + c / 64 % 64, 0x80 + c % 64;
            Announced(a) == 4 && SecondByte(a, b) && Tail(d) && Tail(e) && c == ((a % 8 * 64 + b % 64) * 64 + d % 64) * 64 + e % 64
  {
    Shifts(c);
    assert (0xF0 + c / 262144) % 8 == c / 262144;
  }

  lemma EncodedIsCarried(text: Text, i: nat, c: nat)
    requires Encoded(text, i, c)
    ensures i < |text| && IsSequence(text, i) && c == Carried(text, i)
  {
    var e := Encode(c);
    hide At;
    AtIndex(text, i, e, 0);
    if c <= 0x7F {
    } else if c <= 0x7FF {
      EncodeTwo(c);
      AtIndex(text, i, e, 1);
    } else if c <= 0xFFFF {
      EncodeThree(c);
      AtIndex(text, i, e, 1);
      AtIndex(text, i, e, 2);
    } else {
      EncodeFour(c);
      AtIndex(text, i, e, 1);
      AtIndex(text, i, e, 2);
      AtIndex(text, i, e, 3);
    }
  }

  // ----- Whole texts -----

  predicate AllScalar(cs: seq<nat>) {
    forall i :: 0 <= i < |cs| ==> IsScalarValue(cs[i])
  }

  function EncodeAll(cs: seq<nat>): Text
    requires AllScalar(cs)
  {
    if cs == [] then [] else Encode(cs[0]) + EncodeAll(cs[1..])
  }

  ghost predicate WellFormed(s: Text) {
    exists cs :: AllScalar(cs) && EncodeAll(cs) == s
  }

  lemma SequenceLength(s: Text, i: nat)
    requires i < |s| && IsSequence(s, i)
    ensures i + Announced(s[i]) <= |s| && Announced(s[i]) > 0
  {
  }

  /** The scalar values of a text, sequence after sequence. */
  function DecodeAll(s: Text): (cs: Option<seq<nat>>)
    decreases |s|
  {
    if s == [] then Some([])
    else if !IsSequence(s, 0) then None
    else
      SequenceLength(s, 0);
      match DecodeAll(s[Announced(s[0])..])
      case None => None
      case Some(cs) => Some([Carried(s, 0)] + cs)
  }

  /** Decoding undoes encoding, and nothing else decodes. */
  lemma {:induction false} DecodeIsEncode(s: Text, cs: seq<nat>)
    ensures DecodeAll(s) == Some(cs) <==> AllScalar(cs) && EncodeAll(cs) == s
    decreases |s| + |cs|
  {
    hide IsSequence, Carried, Encode;
    if s == [] {
      if cs != [] && AllScalar(cs) {
        EncodeSome(cs[0]);
      }
    } else {
      GrammarIsEncoding(s, 0);
      if IsSequence(s, 0) {
        var c, rest := Carried(s, 0), s[Announced(s[0])..];
        assert Encoded(s, 0, c);
        assert s == Encode(c) + rest;
        if DecodeAll(s) == Some(cs) {
          assert cs[1..] == DecodeAll(rest).value && cs[0] == c;
          DecodeIsEncode(rest, cs[1..]);
        }
      }
      if AllScalar(cs) && EncodeAll(cs) == s {
        EncodeSome(cs[0]);
        assert s[0..0 + |Encode(cs[0])|] == Encode(cs[0]);
        assert Encoded(s, 0, cs[0]);
        assert s[Announced(s[0])..] == EncodeAll(cs[1..]);
        DecodeIsEncode(s[Announced(s[0])..], cs[1..]);
        assert cs == [cs[0]] + cs[1..];
      }
    }
  }

  lemma EncodeSome(c: nat)
    requires c <= 0x10FFFF
    ensures Encode(c) != []
  {
  }

  lemma WellFormedDecodes(s: Text)
    ensures WellFormed(s) <==> DecodeAll(s).Some?
  {
    if DecodeAll(s).Some? {
      DecodeIsEncode(s, DecodeAll(s).value);
    }
    if WellFormed(s) {
      var cs :| AllScalar(cs) && EncodeAll(cs) == s;
      DecodeIsEncode(s, cs);
    }
  }

  lemma OneIsWellFormed(c: nat)
    requires IsScalarValue(c)
    ensures WellFormed(Encode(c))
  {
    hide Encode;
    assert [c][1..] == [];
    assert Encode(c) + [] == Encode(c);
    assert EncodeAll([c]) == Encode(c);
  }

  lemma {:induction false} EncodeConcat(a: seq<nat>, b: seq<nat>)
    requires AllScalar(a) && AllScalar(b)
    ensures AllScalar(a + b) && EncodeAll(a + b) == EncodeAll(a) + EncodeAll(b)
  {
    hide Encode;
    if a == [] {
      assert a + b == b;
    } else {
      assert (a + b)[0] == a[0] && (a + b)[1..] == a[1..] + b;
      EncodeConcat(a[1..], b);
    }
  }

  /** Behind a well-formed text, a text is well-formed exactly when it is on its own. */
  lemma {:induction false} WellFormedConcat(a: Text, b: Text)
    requires WellFormed(a)
    ensures WellFormed(a + b) <==> WellFormed(b)
  {
    var cs :| AllScalar(cs) && EncodeAll(cs) == a;
    if WellFormed(b) {
      var ds :| AllScalar(ds) && EncodeAll(ds) == b;
      EncodeConcat(cs, ds);
    }
    if WellFormed(a + b) {
      var es :| AllScalar(es) && EncodeAll(es) == a + b;
      StripPrefix(cs, es, b);
    }
  }

  lemma {:induction false} StripPrefix(cs: seq<nat>, es: seq<nat>, b: Text)
    requires AllScalar(cs) && AllScalar(es) && EncodeAll(es) == EncodeAll(cs) + b
    ensures WellFormed(b)
  {
    hide Encode;
    if cs == [] {
      assert EncodeAll(cs) + b == b;
    } else {
      var s := EncodeAll(es);
      EncodeSome(cs[0]);
      assert es != [];
      EncodeSome(es[0]);
      assert s[0..0 + |Encode(es[0])|] == Encode(es[0]);
      assert s[0..0 + |Encode(cs[0])|] == Encode(cs[0]);
      assert Encoded(s, 0, es[0]) && Encoded(s, 0, cs[0]);
      GrammarIsEncoding(s, 0);
      assert EncodeAll(es[1..]) == s[|Encode(es[0])|..] == EncodeAll(cs[1..]) + b;
      StripPrefix(cs[1..], es[1..], b);
    }
  }

  // ----- The decoder -----

  /** The types of the decoding automaton, one bit each for the three ranges of tails. */
  function GetRange(c: nat): bv8
    requires c < 256
  {
    if c < 0x80 then 0
    else if c < 0x90 then 0x10
    else if c < 0xA0 then 0x40
    else if c < 0xC0 then 0x20
    else if c < 0xC2 then 8
    else if c < 0xE0 then 2
    else if c == 0xE0 then 10
    else if c == 0xED then 4
    else if c < 0xF0 then 3
    else if c == 0xF0 then 11
    else if c < 0xF4 then 6
    else if c == 0xF4 then 5
    else 8
  }

  /** (0xFF >> type) & c, for the types of first bytes. */
  function FirstBits(t: bv8, c: nat): nat {
    if t == 2 then c % 64
    else if t == 3 then c % 32
    else if t == 4 then c % 16
    else if t == 5 then c % 8
    else if t == 6 then c % 4
    else 0
  }

  class StringStream {
    const src: Text
    var position: nat

    constructor (src: Text)
      ensures this.src == src && position == 0
    {
      this.src := src;
      position := 0;
    }

    /** Behind the text stands its terminator. */
    method Take() returns (c: nat)
      modifies this
      ensures c == Peek(src, old(position)) && position == old(position) + 1
    {
      c := Peek(src, position);
      position := position + 1;
    }
  }

  /** Takes a byte of a sequence, adds its six bits, and tells whether its type is one of `mask`. */
  method Copy(input: StringStream, codepoint: nat, mask: bv8) returns (codepoint': nat, good: bool)
    requires Bytes(input.src)
    modifies input
    ensures var c := Peek(input.src, old(input.position));
            codepoint' == codepoint * 64 + c % 64 && c < 256 && (good <==> GetRange(c) & mask != 0)
    ensures input.position == old(input.position) + 1
  {
    var c := input.Take();
    codepoint' := codepoint * 64 + c % 64;
    good := GetRange(c) & mask != 0;
  }

  lemma Masks(c: nat)
    requires c < 256
    ensures GetRange(c) & 0x70 != 0 <==> Tail(c)
    ensures GetRange(c) & 0x50 != 0 <==> 0x80 <= c <= 0x9F
    ensures GetRange(c) & 0x10 != 0 <==> 0x80 <= c <= 0x8F
    ensures GetRange(c) & 0x20 != 0 <==> 0xA0 <= c <= 0xBF
    ensures GetRange(c) & 0x60 != 0 <==> 0x90 <= c <= 0xBF
  {
  }

  /** UTF8::Decode accepts exactly the encoded scalar values, and inverts UTF8::Encode. */
  method Decode(input: StringStream) returns (ok: bool, codepoint: nat)
    requires Bytes(input.src)
    modifies input
    ensures ok <==> IsSequence(input.src, old(input.position))
    ensures ok ==> codepoint == Carried(input.src, old(input.position))
                   && input.position == old(input.position) + Announced(Peek(input.src, old(input.position)))
    ensures old(input.position) < |input.src| ==> (ok <==> exists c :: Encoded(input.src, old(input.position), c))
    ensures ok && old(input.position) < |input.src| ==>
              Encoded(input.src, old(input.position), codepoint) && input.position == old(input.position) + |Encode(codepoint)|
  {
    hide GetRange, Encode, Encoded;
    ghost var s, i := input.src, input.position;
    if i < |s| {
      GrammarIsEncoding(s, i);
    }
    Masks(Peek(s, i + 1));
    Masks(Peek(s, i + 2));
    Masks(Peek(s, i + 3));
    var c := input.Take();
    if c < 0x80 {
      return true, c;
    }
    var t := GetRange(c);
    FirstByte(c);
    codepoint := if t >= 32 then 0 else FirstBits(t, c);
    var good: bool;
    if t == 2 {
      codepoint, ok := Copy(input, codepoint, 0x70);
    } else if t == 3 || t == 4 || t == 10 {
      codepoint, ok := Copy(input, codepoint, if t == 3 then 0x70 else if t == 4 then 0x50 else 0x20);
      codepoint, good := Copy(input, codepoint, 0x70);
      ok := ok && good;
    } else if t == 5 || t == 6 || t == 11 {
      codepoint, ok := Copy(input, codepoint, if t == 5 then 0x10 else if t == 6 then 0x70 else 0x60);
      codepoint, good := Copy(input, codepoint, 0x70);
      ok := ok && good;
      codepoint, good := Copy(input, codepoint, 0x70);
      ok := ok && good;
    } else {
      ok := false;
    }
  }

  /** What the type of a first byte says about the sequence. */
  lemma FirstByte(c: nat)
    requires 0x80 <= c < 256
    ensures var t, n := GetRange(c), Announced(c);
            && (t == 2 <==> n == 2)
            && (t == 3 || t == 4 || t == 10 <==> n == 3)
            && (t == 5 || t == 6 || t == 11 <==> n == 4)
            && (t == 4 <==> c == 0xED) && (t == 10 <==> c == 0xE0) && (t == 5 <==> c == 0xF4) && (t == 11 <==> c == 0xF0)
            && (n == 2 ==> FirstBits(t, c) == c % 32) && (n == 3 ==> FirstBits(t, c) == c % 16) && (n == 4 ==> FirstBits(t, c) == c % 8)
            && n != 1 && (n > 0 ==> t < 32)
  {
  }

  /** UTF8::Validate decides the same and puts what it takes on its output. */
  method Validate(input: StringStream) returns (ok: bool, put: Text)
    requires Bytes(input.src)
    modifies input
    ensures ok <==> IsSequence(input.src, old(input.position))
    ensures ok ==> input.position == old(input.position) + Announced(Peek(input.src, old(input.position)))
    ensures ok && old(input.position) < |input.src| ==>
              input.position <= |input.src| && put == input.src[old(input.position)..input.position]
  {
    hide GetRange, FirstBits;
    ghost var s, i := input.src, input.position;
    Masks(Peek(s, i + 1));
    Masks(Peek(s, i + 2));
    Masks(Peek(s, i + 3));
    var c := input.Take();
    put := [c];
    if c < 0x80 {
      return true, put;
    }
    var t := GetRange(c);
    FirstByte(c);
    var good: bool;
    if t == 2 {
      ok, put := CopyUnit(input, put, 0x70);
    } else if t == 3 || t == 4 || t == 10 {
      ok, put := CopyUnit(input, put, if t == 3 then 0x70 else if t == 4 then 0x50 else 0x20);
      good, put := CopyUnit(input, put, 0x70);
      ok := ok && good;
    } else if t == 5 || t == 6 || t == 11 {
      ok, put := CopyUnit(input, put, if t == 5 then 0x10 else if t == 6 then 0x70 else 0x60);
      good, put := CopyUnit(input, put, 0x70);
      ok := ok && good;
      good, put := CopyUnit(input, put, 0x70);
      ok := ok && good;
    } else {
      ok := false;
    }
  }

  method CopyUnit(input: StringStream, put: Text, mask: bv8) returns (good: bool, put': Text)
    requires Bytes(input.src)
    modifies input
    ensures var c := Peek(input.src, old(input.position));
            c < 256 && (good <==> GetRange(c) & mask != 0) && put' == put + [c]
    ensures input.position == old(input.position) + 1
  {
    var c := input.Take();
    good, put' := GetRange(c) & mask != 0, put + [c];
  }

  // ----- UTF-16 -----

  /** UTF16::Encode: one unit, or a surrogate pair. */
  function Encode16(c: nat): Text
    requires IsScalarValue(c)
  {
    if c <= 0xFFFF then [c] else [0xD800 + (c - 0x10000) / 1024, 0xDC00 + (c - 0x10000) % 1024]
  }

  ghost predicate Encoded16(text: Text, i: nat, c: nat) {
    IsScalarValue(c) && At(text, i, Encode16(c))
  }

  /** UTF16::Decode accepts exactly the encoded scalar values, and inverts UTF16::Encode. */
  method Decode16(input: StringStream) returns (ok: bool, codepoint: nat)
    requires input.position < |input.src| && forall k :: 0 <= k < |input.src| ==> input.src[k] <= 0xFFFF
    modifies input
    ensures ok <==> exists c :: Encoded16(input.src, old(input.position), c)
    ensures ok ==> Encoded16(input.src, old(input.position), codepoint) && input.position == old(input.position) + |Encode16(codepoint)|
  {
    codepoint := 0;
    ghost var s, i := input.src, input.position;
    var c := input.Take();
    if c < 0xD800 || c > 0xDFFF {
      assert s[i..i + 1] == [c];
      assert Encoded16(s, i, c);
      return true, c;
    } else if c <= 0xDBFF {
      codepoint := c % 1024 * 1024;
      c := input.Take();
      codepoint := codepoint + c % 1024;
      codepoint := codepoint + 0x10000;
      ok := 0xDC00 <= c <= 0xDFFF;
      if ok {
        assert s[i..i + 2] == [s[i], s[i + 1]];
        assert Encoded16(s, i, codepoint);
        return;
      }
    } else {
      ok := false;
    }
    forall d ensures !Encoded16(s, i, d) {
      if Encoded16(s, i, d) {
        FirstUnits(s, i, d);
      }
    }
  }

  lemma FirstUnits(s: Text, i: nat, d: nat)
    requires Encoded16(s, i, d)
    ensures d <= 0xFFFF ==> !(0xD800 <= Peek(s, i) <= 0xDFFF)
    ensures d > 0xFFFF ==> 0xD800 <= Peek(s, i) <= 0xDBFF && 0xDC00 <= Peek(s, i + 1) <= 0xDFFF
  {
    AtIndex(s, i, Encode16(d), 0);
    if d > 0xFFFF {
      AtIndex(s, i, Encode16(d), 1);
    }
  }
}
