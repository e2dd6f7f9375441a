/** What the writers put for a string: of all its spellings in JSON, the shortest. */
module JsonSpellings {
  import opened Options
  import opened JsonEvents
  import opened JsonLexer
  import opened Encodings
  import opened Texts
  import opened JsonWriters
  import opened JsonStrings
  import opened JsonSyntaxes

  predicate UpperDigits(h: Text) {
    forall k :: 0 <= k < |h| ==> !(0x61 <= h[k] <= 0x66)
  }

  /** Its hexadecimal digits are in upper case. */
  predicate UpperForm(f: CharForm) {
    match f
    case Hex(h) => UpperDigits(h)
    case Pair(l, t) => UpperDigits(l) && UpperDigits(t)
    case _ => true
  }

  predicate Upper(fs: seq<CharForm>) {
    forall k :: 0 <= k < |fs| ==> UpperForm(fs[k])
  }

  // ----- Hexadecimal digits -----

  lemma UpperNibble(c: nat)
    requires 0x30 <= c <= 0x39 || 0x41 <= c <= 0x46
    ensures c == HexDigit(NibbleOf(c))
  {
  }

  /** Four digits in upper case are those of their value. */
  lemma UnitDigits(h: Text)
    requires JsonSyntaxes.HexDigits(h) && UpperDigits(h)
    ensures h == FourDigits(UnitOf(h))
  {
    var u := UnitOf(h);
    var a, b, c, d := NibbleOf(h[0]), NibbleOf(h[1]), NibbleOf(h[2]), NibbleOf(h[3]);
    UpperNibble(h[0]);
    UpperNibble(h[1]);
    UpperNibble(h[2]);
    UpperNibble(h[3]);
    Nibbles(a, b, c, d);
  }

  lemma Nibbles(a: nat, b: nat, c: nat, d: nat)
    requires a < 16 && b < 16 && c < 16 && d < 16
    ensures var u := 0x1000 * a + 0x100 * b + 0x10 * c + d;
            u / 4096 == a && u / 256 % 16 == b && u / 16 % 16 == c && u % 16 == d
  {
    var u := 0x1000 * a + 0x100 * b + 0x10 * c + d;
    assert u / 16 == 0x100 * a + 0x10 * b + c;
    assert u / 256 == 0x10 * a + b;
  }

  lemma DigitsOfUnit(u: nat)
    requires u <= 0xFFFF
    ensures JsonSyntaxes.HexDigits(FourDigits(u)) && UpperDigits(FourDigits(u)) && UnitOf(FourDigits(u)) == u
  {
    hide HexDigit, NibbleOf;
    DigitNibble(u / 4096);
    DigitNibble(u / 256 % 16);
    DigitNibble(u / 16 % 16);
    DigitNibble(u % 16);
    HexBack4(u);
  }

  lemma DigitNibble(n: nat)
    requires n < 16
    ensures 0x30 <= HexDigit(n) <= 0x39 || 0x41 <= HexDigit(n) <= 0x46
    ensures NibbleOf(HexDigit(n)) == n
  {
  }

  // ----- One character -----

  lemma {:induction false} HighText(s: Text)
    requires forall k :: 0 <= k < |s| ==> s[k] >= 0x80
    ensures EscapedText(s) == s
    decreases |s|
  {
    if s != [] {
      HighText(s[1..]);
    }
  }

  lemma OneText(c: nat)
    ensures EscapedText([c]) == EscapedChar(c)
  {
    assert EscapedText([c]) == EscapedChar(c) + [];
  }

  lemma EncodeHigh(c: nat)
    requires 0x80 <= c <= 0x10FFFF
    ensures |Encode(c)| == (if c <= 0x7FF then 2 else if c <= 0xFFFF then 3 else 4)
    ensures forall k :: 0 <= k < |Encode(c)| ==> Encode(c)[k] >= 0x80
  {
  }

  ghost predicate AsShort(f: CharForm, t: Text) {
    && |t| <= |FormText(f)|
    && (|t| == |FormText(f)| && UpperForm(f) ==> t == FormText(f))
  }

  lemma HexForm(h: Text)
    requires FormOk(Hex(h))
    ensures AsShort(Hex(h), if UnitOf(h) < 0x80 then EscapedChar(UnitOf(h)) else UnicodeForm(UnitOf(h)))
  {
    if UpperDigits(h) {
      UnitDigits(h);
    }
  }

  lemma PairForm(l: Text, t: Text)
    requires FormOk(Pair(l, t))
    ensures var c := 0x10000 + (UnitOf(l) - 0xD800) * 0x400 + (UnitOf(t) - 0xDC00);
            FormValue(Pair(l, t)) == Encode(c) && 0x10000 <= c <= 0x10FFFF && AsShort(Pair(l, t), AsciiChar(c))
  {
    hide UnitOf, Encode, EscapedChar, HexDigit;
    var c := 0x10000 + (UnitOf(l) - 0xD800) * 0x400 + (UnitOf(t) - 0xDC00);
    assert (c - 0x10000) / 1024 + 0xD800 == UnitOf(l) && (c - 0x10000) % 1024 + 0xDC00 == UnitOf(t);
    assert |AsciiChar(c)| == 12;
    if UpperDigits(l) && UpperDigits(t) {
      UnitDigits(l);
      UnitDigits(t);
    }
  }

  /** The escapes of the default target are no longer than any other form. */
  lemma FormIsLonger(f: CharForm)
    requires FormOk(f)
    ensures AsShort(f, EscapedText(FormValue(f)))
  {
    hide EscapedText, Encode, UnitOf, FourDigits;
    match f
    case Raw(b) => OneText(b);
    case Short(e) => OneText(ShortValue(e));
    case Hex(h) =>
      var u := UnitOf(h);
      if u < 0x80 {
        HexForm(h);
        OneByte(u);
        OneText(u);
      } else {
        EncodeHigh(u);
        HighText(Encode(u));
      }
    case Pair(l, t) =>
      PairForm(l, t);
      var c := 0x10000 + (UnitOf(l) - 0xD800) * 0x400 + (UnitOf(t) - 0xDC00);
      EncodeHigh(c);
      HighText(Encode(c));
  }

  lemma OneByte(c: nat)
    requires c < 0x80
    ensures Encode(c) == [c]
  {
  }

  lemma {:induction false} EscapedJoin(a: Text, b: Text)
    ensures EscapedText(a + b) == EscapedText(a) + EscapedText(b)
    decreases |a|
  {
    hide EscapedChar;
    if a == [] {
      assert a + b == b;
    } else {
      EscapedJoin(a[1..], b);
      assert (a + b)[1..] == a[1..] + b;
    }
  }

  /** No spelling of the bytes is shorter, and none as short is another, but for the case of its digits. */
  lemma {:induction false} EscapedIsShortest(fs: seq<CharForm>)
    requires FormsOk(fs)
    ensures |EscapedText(FormsValue(fs))| <= |FormsText(fs)|
    ensures |EscapedText(FormsValue(fs))| == |FormsText(fs)| && Upper(fs) ==> EscapedText(FormsValue(fs)) == FormsText(fs)
    decreases |fs|
  {
    hide FormOk, FormValue, FormText, EscapedText, UpperForm;
    if fs == [] {
      EscapedNone();
    } else {
      FormIsLonger(fs[0]);
      EscapedIsShortest(fs[1..]);
      EscapedJoin(FormValue(fs[0]), FormsValue(fs[1..]));
    }
  }

  lemma EscapedNone()
    ensures EscapedText([]) == []
  {
  }

  // ----- The ASCII target -----

  /** Encoded forms of different code points part before either ends. */
  lemma EncodePrefix(a: nat, b: nat, s: Text, t: Text)
    requires a <= 0x10FFFF && b <= 0x10FFFF && Encode(a) + s == Encode(b) + t
    ensures a == b && s == t
  {
    var u, v := Encode(a) + s, Encode(b) + t;
    assert u[0] == Encode(a)[0] && v[0] == Encode(b)[0];
    assert |Encode(a)| == |Encode(b)|;
    assert forall k :: 0 <= k < |Encode(a)| ==> Encode(a)[k] == u[k] && Encode(b)[k] == v[k];
    assert Encode(a) == Encode(b);
    SameCode(a, b);
    assert s == u[|Encode(a)|..] && t == v[|Encode(a)|..];
  }

  lemma EncodeValue(c: nat)
    requires c <= 0x10FFFF
    ensures var e := Encode(c);
            c == if |e| == 1 then e[0]
                 else if |e| == 2 then (e[0] - 0xC0) * 64 + (e[1] - 0x80)
                 else if |e| == 3 then (e[0] - 0xE0) * 4096 + (e[1] - 0x80) * 64 + (e[2] - 0x80)
                 else (e[0] - 0xF0) * 262144 + (e[1] - 0x80) * 4096 + (e[2] - 0x80) * 64 + (e[3] - 0x80)
  {
    assert c / 64 == c / 4096 * 64 + c / 64 % 64;
    assert c / 4096 == c / 262144 * 64 + c / 4096 % 64;
  }

  lemma SameCode(a: nat, b: nat)
    requires a <= 0x10FFFF && b <= 0x10FFFF && Encode(a) == Encode(b)
    ensures a == b
  {
    hide Encode;
    EncodeValue(a);
    EncodeValue(b);
  }

  lemma AsciiForm(f: CharForm, c: nat, s: Text, t: Text)
    requires FormOk(f) && AllAscii(FormText(f)) && IsScalarValue(c) && FormValue(f) + s == Encode(c) + t
    ensures AsShort(f, AsciiChar(c)) && s == t
  {
    hide UnitOf, FourDigits, Encode;
    match f
    case Raw(b) =>
      assert FormText(f)[0] == b;
      OneByte(b);
      EncodePrefix(b, c, s, t);
    case Short(e) =>
      OneByte(ShortValue(e));
      EncodePrefix(ShortValue(e), c, s, t);
    case Hex(h) =>
      EncodePrefix(UnitOf(h), c, s, t);
      HexForm(h);
    case Pair(l, r) =>
      PairForm(l, r);
      EncodePrefix(0x10000 + (UnitOf(l) - 0xD800) * 0x400 + (UnitOf(r) - 0xDC00), c, s, t);
  }

  lemma FormHasValue(f: CharForm)
    requires FormOk(f)
    ensures FormValue(f) != []
  {
  }

  lemma AsciiParts(fs: seq<CharForm>)
    requires fs != [] && AllAscii(FormsText(fs))
    ensures AllAscii(FormText(fs[0])) && AllAscii(FormsText(fs[1..]))
  {
    hide FormText;
    var a, b := FormText(fs[0]), FormsText(fs[1..]);
    assert forall k :: 0 <= k < |a| ==> a[k] == (a + b)[k];
    assert forall k :: 0 <= k < |b| ==> b[k] == (a + b)[|a| + k];
  }

  lemma {:induction false} AsciiIsShortest(fs: seq<CharForm>, cs: seq<nat>)
    requires FormsOk(fs) && AllAscii(FormsText(fs)) && AllScalar(cs) && FormsValue(fs) == EncodeAll(cs)
    ensures |AsciiText(cs)| <= |FormsText(fs)|
    ensures |AsciiText(cs)| == |FormsText(fs)| && Upper(fs) ==> AsciiText(cs) == FormsText(fs)
    decreases |fs|
  {
    hide FormOk, FormValue, FormText, AsciiChar, Encode, AllAscii, UpperForm;
    if fs == [] {
      if cs != [] {
        EncodeSome(cs[0]);
      }
    } else {
      FormHasValue(fs[0]);
      AsciiParts(fs);
      AsciiForm(fs[0], cs[0], FormsValue(fs[1..]), EncodeAll(cs[1..]));
      AsciiIsShortest(fs[1..], cs[1..]);
    }
  }

  /**
   * Of all the ways to spell the string between quotes (in ASCII, where that is the target), the writer takes the
   * shortest, and of those the one with its hexadecimal digits in upper case.
   */
  lemma ShortestSpelling(ascii: bool, validates: bool, s: Text, fs: seq<CharForm>)
    requires StringText(ascii, validates, s).Some?
    requires FormsOk(fs) && FormsValue(fs) == s && (ascii ==> AllAscii(FormsText(fs)))
    ensures var t := StringText(ascii, validates, s).value;
            |t| <= |FormsText(fs)| && (|t| == |FormsText(fs)| && Upper(fs) ==> t == FormsText(fs))
  {
    hide FormsOk, FormsValue, FormsText, EscapedText, AsciiText, DecodeAll, AllAscii, Upper;
    if ascii {
      var cs := DecodeAll(s).value;
      DecodeIsEncode(s, cs);
      AsciiIsShortest(fs, cs);
    } else {
      EscapedIsShortest(fs);
    }
  }

  // ----- The text that is written is such a spelling -----

  function ByteForm(c: nat): CharForm {
    match EscapedChar(c)
    case t => if |t| == 1 then Raw(c) else if |t| == 2 then Short(t[1]) else Hex(t[2..])
  }

  lemma ByteFormIs(c: nat)
    requires c < 256
    ensures var f := ByteForm(c); FormOk(f) && UpperForm(f) && FormText(f) == EscapedChar(c) && FormValue(f) == [c]
  {
    if |EscapedChar(c)| == 6 {
      assert EscapedChar(c)[2..] == FourDigits(c);
      DigitsOfUnit(c);
    }
  }

  lemma {:induction false} EscapedIsSpelled(s: Text) returns (fs: seq<CharForm>)
    requires Bytes(s)
    ensures FormsOk(fs) && Upper(fs) && FormsText(fs) == EscapedText(s) && FormsValue(fs) == s
    decreases |s|
  {
    hide FormOk, UpperForm, FormText, FormValue, EscapedChar;
    if s == [] {
      fs := [];
    } else {
      var rest := EscapedIsSpelled(s[1..]);
      ByteFormIs(s[0]);
      fs := [ByteForm(s[0])] + rest;
      assert fs[1..] == rest;
      assert s == [s[0]] + s[1..];
    }
  }

  function ScalarForm(c: nat): CharForm
    requires IsScalarValue(c)
  {
    if c < 0x80 then ByteForm(c)
    else if c <= 0xFFFF then Hex(FourDigits(c))
    else Pair(FourDigits((c - 0x10000) / 1024 + 0xD800), FourDigits((c - 0x10000) % 1024 + 0xDC00))
  }

  lemma ScalarFormIs(c: nat)
    requires IsScalarValue(c)
    ensures var f := ScalarForm(c); FormOk(f) && UpperForm(f) && FormText(f) == AsciiChar(c) && FormValue(f) == Encode(c)
  {
    hide ByteForm, EscapedChar, Encode, FourDigits, UnitOf;
    if c < 0x80 {
      ByteFormIs(c);
      OneByte(c);
    } else if c <= 0xFFFF {
      DigitsOfUnit(c);
    } else {
      DigitsOfUnit((c - 0x10000) / 1024 + 0xD800);
      DigitsOfUnit((c - 0x10000) % 1024 + 0xDC00);
    }
  }

  lemma {:induction false} AsciiIsSpelled(cs: seq<nat>) returns (fs: seq<CharForm>)
    requires AllScalar(cs)
    ensures FormsOk(fs) && Upper(fs) && FormsText(fs) == AsciiText(cs) && FormsValue(fs) == EncodeAll(cs)
    decreases |cs|
  {
    hide FormOk, UpperForm, FormText, FormValue, AsciiChar, Encode;
    if cs == [] {
      fs := [];
    } else {
      var rest := AsciiIsSpelled(cs[1..]);
      ScalarFormIs(cs[0]);
      fs := [ScalarForm(cs[0])] + rest;
      assert fs[1..] == rest;
    }
  }

  /** What is written is a spelling of the string, with its hexadecimal digits in upper case. */
  lemma WrittenIsSpelled(ascii: bool, validates: bool, s: Text)
    requires Bytes(s) && StringText(ascii, validates, s).Some?
    ensures exists fs :: FormsOk(fs) && Upper(fs) && FormsText(fs) == StringText(ascii, validates, s).value && FormsValue(fs) == s
  {
    hide FormsOk, FormsValue, FormsText, EscapedText, AsciiText, DecodeAll, Upper;
    if ascii {
      var cs := DecodeAll(s).value;
      DecodeIsEncode(s, cs);
      var fs := AsciiIsSpelled(cs);
    } else {
      var fs := EscapedIsSpelled(s);
    }
  }
}
