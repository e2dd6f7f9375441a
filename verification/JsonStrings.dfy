/** Strings with an ASCII target or with validation: WriteString of writer.h and ParseStringToStream of reader.h in full. */
module JsonStrings {
  import opened Options
  import opened JsonEvents
  import opened Encodings
  import opened Texts
  import opened JsonLexer
  import opened JsonWriters

  // ----- The reader's loop -----

  /** One character of a string, or one whole sequence of it where the reader validates. */
  function PieceAt(validates: bool, text: Text, i: nat): (c: Option<(Text, nat)>)
    requires i <= |text|
    ensures c.Some? ==> i < c.value.1 <= |text|
  {
    if !validates || Peek(text, i) == BACKSLASH || Peek(text, i) < 0x20 then CharAt(text, i)
    else if !IsSequence(text, i) then None
    else
      SequenceLength(text, i);
      var e := i + Announced(text[i]);
      Some((text[i..e], e))
  }

  function ParsedString(validates: bool, text: Text, i: nat, acc: Text): (s: Option<(Text, nat)>)
    requires i <= |text|
    ensures s.Some? ==> i < s.value.1 <= |text|
    decreases |text| - i
  {
    if Peek(text, i) == QUOTE then Some((acc, i + 1))
    else
      match PieceAt(validates, text, i)
      case None => None
      case Some((bytes, j)) => ParsedString(validates, text, j, acc + bytes)
  }

  lemma {:induction false} PlainParse(text: Text, i: nat, acc: Text)
    requires i <= |text|
    ensures ParsedString(false, text, i, acc) == StringFrom(text, i, acc)
    decreases |text| - i
  {
    hide CharAt;
    if Peek(text, i) != QUOTE && CharAt(text, i).Some? {
      PlainParse(text, CharAt(text, i).value.1, acc + CharAt(text, i).value.0);
    }
  }

  /** The first `k` of four hexadecimal digits. */
  function HexPrefix(text: Text, i: nat, k: nat): (h: Option<nat>)
    requires k <= 4
  {
    if k == 0 then Some(0)
    else
      match (HexPrefix(text, i, k - 1), HexValue(Peek(text, i + k - 1)))
      case (Some(h), Some(d)) => Some(h * 16 + d)
      case _ => None
  }

  lemma HexDigits(c: nat)
    ensures HexValue(c).Some? ==> HexValue(c).value < 16
  {
  }

  lemma HexWhole(text: Text, i: nat)
    ensures HexPrefix(text, i, 4) == ParseHex4(text, i)
  {
    HexDigits(Peek(text, i));
    HexDigits(Peek(text, i + 1));
    HexDigits(Peek(text, i + 2));
    HexDigits(Peek(text, i + 3));
    assert HexPrefix(text, i, 1) == HexValue(Peek(text, i));
    assert HexPrefix(text, i, 3) ==
           match (HexPrefix(text, i, 2), HexValue(Peek(text, i + 2)))
           case (Some(h), Some(d)) => Some(h * 16 + d)
           case _ => None;
  }

  lemma {:induction false} HexBroken(text: Text, i: nat, k: nat, n: nat)
    requires k <= n <= 4 && HexPrefix(text, i, k).None?
    ensures HexPrefix(text, i, n).None?
  {
    if k < n {
      HexBroken(text, i, k, n - 1);
    }
  }

  method ReadHex4(input: StringStream) returns (h: Option<nat>)
    modifies input
    ensures h == ParseHex4(input.src, old(input.position))
    ensures h.Some? ==> input.position == old(input.position) + 4
  {
    hide ParseHex4;
    var codepoint := 0;
    for k := 0 to 4
      invariant input.position == old(input.position) + k
      invariant HexPrefix(input.src, old(input.position), k) == Some(codepoint)
    {
      var c := Peek(input.src, input.position);
      codepoint := codepoint * 16 + c;
      if '0' as nat <= c <= '9' as nat {
        codepoint := codepoint - '0' as nat;
      } else if 'A' as nat <= c <= 'F' as nat {
        codepoint := codepoint - ('A' as nat - 10);
      } else if 'a' as nat <= c <= 'f' as nat {
        codepoint := codepoint - ('a' as nat - 10);
      } else {
        HexBroken(input.src, old(input.position), k + 1, 4);
        HexWhole(input.src, old(input.position));
        return None;
      }
      input.position := input.position + 1;
    }
    HexWhole(input.src, old(input.position));
    h := Some(codepoint);
  }

  /** The escape behind "\u": one unit or a surrogate pair. */
  method ReadUnicode(input: StringStream) returns (u: Option<nat>)
    modifies input
    ensures u.Some? <==> UnicodeEscape(input.src, old(input.position)).Some?
    ensures u.Some? ==> UnicodeEscape(input.src, old(input.position)) == Some((u.value, input.position))
  {
    hide ParseHex4;
    u := ReadHex4(input);
    if u.None? {
      return;
    }
    if 0xD800 <= u.value <= 0xDBFF {
      var consumed := Consume(input, BACKSLASH);
      if consumed {
        consumed := Consume(input, 'u' as nat);
      }
      if !consumed {
        return None;
      }
      var trail := ReadHex4(input);
      if trail.None? || trail.value < 0xDC00 || trail.value > 0xDFFF {
        return None;
      }
      u := Some((u.value - 0xD800) * 1024 + (trail.value - 0xDC00) + 0x10000);
    }
  }

  method Consume(input: StringStream, wanted: nat) returns (there: bool)
    modifies input
    ensures there <==> Peek(input.src, old(input.position)) == wanted
    ensures input.position == old(input.position) + (if there then 1 else 0)
  {
    there := Peek(input.src, input.position) == wanted;
    if there {
      input.position := input.position + 1;
    }
  }

  /** A whole escape, from its backslash on. */
  method ReadEscape(input: StringStream) returns (bytes: Option<Text>)
    requires input.position < |input.src| && input.src[input.position] == BACKSLASH
    modifies input
    ensures bytes.Some? <==> CharAt(input.src, old(input.position)).Some?
    ensures bytes.Some? ==> CharAt(input.src, old(input.position)) == Some((bytes.value, input.position))
  {
    hide UnicodeEscape, Encode;
    input.position := input.position + 1;
    var e := Peek(input.src, input.position);
    if Unescape(e) != 0 {
      input.position := input.position + 1;
      return Some([Unescape(e)]);
    }
    if e != 'u' as nat {
      return None;
    }
    input.position := input.position + 1;
    var u := ReadUnicode(input);
    if u.None? {
      return None;
    }
    bytes := Some(Encode(u.value));
  }

  /** ParseStringToStream from behind the opening quote, with and without validation. */
  method ParseStringToStream(input: StringStream, validates: bool) returns (s: Option<Text>)
    requires Bytes(input.src) && input.position <= |input.src|
    modifies input
    ensures s.Some? <==> ParsedString(validates, input.src, old(input.position), []).Some?
    ensures s.Some? ==> ParsedString(validates, input.src, old(input.position), []) == Some((s.value, input.position))
    ensures !validates ==> ParsedString(validates, input.src, old(input.position), []) == StringFrom(input.src, old(input.position), [])
  {
    hide IsSequence, UnicodeEscape, Encode, Bytes, StringFrom;
    var os: Text := [];
    ghost var start := input.position;
    PlainParse(input.src, start, []);
    var text := input.src;
    while true
      invariant input.position <= |text|
      invariant ParsedString(validates, text, start, []) == ParsedString(validates, text, input.position, os)
      decreases |text| - input.position
    {
      ghost var before := os;
      var c := Peek(text, input.position);
      if c == BACKSLASH {
        var bytes := ReadEscape(input);
        if bytes.None? {
          return None;
        }
        os := os + bytes.value;
      } else if c == QUOTE {
        input.position := input.position + 1;
        return Some(os);
      } else if c < 0x20 {
        return None;
      } else if validates {
        var ok, put := Validate(input);
        if !ok {
          return None;
        }
        os := os + put;
      } else {
        os := os + [c];
        input.position := input.position + 1;
      }
    }
  }

  // ----- The ASCII target -----

  /** \uXXXX */
  function UnicodeForm(u: nat): Text {
    [BACKSLASH, 'u' as nat] + FourDigits(u)
  }

  function FourDigits(u: nat): Text {
    [HexDigit(u / 4096), HexDigit(u / 256 % 16), HexDigit(u / 16 % 16), HexDigit(u % 16)]
  }

  function AsciiChar(c: nat): Text
    requires IsScalarValue(c)
  {
    if c < 0x80 then EscapedChar(c)
    else if c <= 0xFFFF then UnicodeForm(c)
    else UnicodeForm((c - 0x10000) / 1024 + 0xD800) + UnicodeForm((c - 0x10000) % 1024 + 0xDC00)
  }

  function AsciiText(cs: seq<nat>): Text
    requires AllScalar(cs)
  {
    if cs == [] then [] else AsciiChar(cs[0]) + AsciiText(cs[1..])
  }

  lemma HexBack4(u: nat)
    requires u <= 0xFFFF
    ensures ((u / 4096 * 16 + u / 256 % 16) * 16 + u / 16 % 16) * 16 + u % 16 == u
  {
    assert u / 256 == u / 4096 * 16 + u / 256 % 16;
    assert u / 16 == u / 256 * 16 + u / 16 % 16;
  }

  lemma FormBack(text: Text, i: nat, u: nat)
    requires At(text, i, UnicodeForm(u)) && u <= 0xFFFF
    ensures i + 6 <= |text| && Peek(text, i) == BACKSLASH && Peek(text, i + 1) == 'u' as nat && ParseHex4(text, i + 2) == Some(u)
  {
    hide At;
    AtFits(text, i, UnicodeForm(u));
    AtIndex(text, i, UnicodeForm(u), 0);
    AtIndex(text, i, UnicodeForm(u), 1);
    AtIndex(text, i, UnicodeForm(u), 2);
    AtIndex(text, i, UnicodeForm(u), 3);
    AtIndex(text, i, UnicodeForm(u), 4);
    AtIndex(text, i, UnicodeForm(u), 5);
    HexDigitBack(u / 4096);
    HexDigitBack(u / 256 % 16);
    HexDigitBack(u / 16 % 16);
    HexDigitBack(u % 16);
    HexBack4(u);
  }

  /** Every scalar value comes back from its ASCII form, encoded. */
  lemma AsciiCharBack(text: Text, i: nat, c: nat)
    requires IsScalarValue(c) && At(text, i, AsciiChar(c))
    ensures i <= |text| && Peek(text, i) != QUOTE && CharAt(text, i) == Some((Encode(c), i + |AsciiChar(c)|))
  {
    hide At, ParseHex4, Encode, EscapedChar;
    if c < 0x80 {
      CharBack(text, i, c);
      OneByteIs(c);
    } else if c <= 0xFFFF {
      FormBack(text, i, c);
    } else {
      var v := c - 0x10000;
      var lead, trail := v / 1024 + 0xD800, v % 1024 + 0xDC00;
      AtConcat(text, i, UnicodeForm(lead), UnicodeForm(trail));
      FormBack(text, i, lead);
      FormBack(text, i + 6, trail);
      assert (lead - 0xD800) * 1024 + (trail - 0xDC00) + 0x10000 == c;
    }
  }

  lemma {:induction false} AsciiTextBack(text: Text, i: nat, cs: seq<nat>, acc: Text)
    requires AllScalar(cs) && At(text, i, AsciiText(cs) + [QUOTE])
    ensures i <= |text| && StringFrom(text, i, acc) == Some((acc + EncodeAll(cs), i + |AsciiText(cs)| + 1))
    decreases |cs|
  {
    hide At, AsciiChar, CharAt, Encode;
    if cs == [] {
      assert AsciiText(cs) + [QUOTE] == [QUOTE];
      AtIndex(text, i, [QUOTE], 0);
      assert acc + EncodeAll(cs) == acc;
    } else {
      var c, rest := cs[0], cs[1..];
      assert AsciiText(cs) + [QUOTE] == AsciiChar(c) + (AsciiText(rest) + [QUOTE]);
      AtConcat(text, i, AsciiChar(c), AsciiText(rest) + [QUOTE]);
      AsciiCharBack(text, i, c);
      AsciiTextBack(text, i + |AsciiChar(c)|, rest, acc + Encode(c));
      assert acc + Encode(c) + EncodeAll(rest) == acc + EncodeAll(cs);
    }
  }

  predicate AllAscii(t: Text) {
    forall i :: 0 <= i < |t| ==> t[i] < 0x80
  }

  lemma {:induction false} AsciiTextIsAscii(cs: seq<nat>)
    requires AllScalar(cs)
    ensures AllAscii(AsciiText(cs))
  {
    if cs != [] {
      AsciiTextIsAscii(cs[1..]);
    }
  }

  // ----- The writer's loop -----

  /** What WriteString puts between the quotes, or None where it gives up. */
  function StringText(ascii: bool, validates: bool, s: Text): Option<Text> {
    if ascii then
      match DecodeAll(s)
      case None => None
      case Some(cs) =>
        assert AllScalar(cs) by { DecodeIsEncode(s, cs); }
        Some(AsciiText(cs))
    else if validates && DecodeAll(s).None? then None
    else Some(EscapedText(s))
  }

  /** Nothing but a text that is not UTF-8 stops the writer, and that only where it decodes or validates. */
  lemma WritesWellFormed(ascii: bool, validates: bool, s: Text)
    ensures StringText(ascii, validates, s).Some? <==> WellFormed(s) || !(ascii || validates)
  {
    WellFormedDecodes(s);
  }

  /** ParseStringToStream undoes WriteString for every target, with or without validation by the writer. */
  lemma StringTextBack(ascii: bool, validates: bool, s: Text, text: Text, i: nat, acc: Text)
    requires Bytes(s) && StringText(ascii, validates, s).Some?
    requires At(text, i, StringText(ascii, validates, s).value + [QUOTE])
    ensures i <= |text|
    ensures StringFrom(text, i, acc) == Some((acc + s, i + |StringText(ascii, validates, s).value| + 1))
    ensures ascii ==> AllAscii(StringText(ascii, validates, s).value)
  {
    hide AsciiText, EscapedText, DecodeAll, StringFrom, At, EncodeAll;
    if ascii {
      var cs := DecodeAll(s).value;
      DecodeIsEncode(s, cs);
      AsciiTextBack(text, i, cs, acc);
      AsciiTextIsAscii(cs);
    } else {
      StringBack(text, i, s, acc);
    }
  }

  /** A validating reader takes back what was written exactly when the string is UTF-8. */
  lemma {:induction false} ValidatingRead(text: Text, i: nat, s: Text, acc: Text)
    requires Bytes(s) && At(text, i, EscapedText(s) + [QUOTE])
    ensures i <= |text|
    ensures ParsedString(true, text, i, acc) ==
            if DecodeAll(s).Some? then Some((acc + s, i + |EscapedText(s)| + 1)) else None
    decreases |s|
  {
    hide At, PieceAt, IsSequence, DecodeAll, EscapedChar, EscapedText;
    AtFits(text, i, EscapedText(s) + [QUOTE]);
    DecodeOne(s);
    if s == [] {
      NothingEscaped();
      AtIndex(text, i, [QUOTE], 0);
      assert acc + s == acc;
    } else {
      var n := if s[0] < 0x80 then 1 else Announced(s[0]);
      FirstPiece(text, i, s);
      if IsSequence(s, 0) {
        var part, rest := s[..n], s[n..];
        ValidatingRead(text, i + |PartText(s, n)|, rest, acc + part);
        assert acc + part + rest == acc + s;
      }
    }
  }

  lemma NothingEscaped()
    ensures EscapedText([]) + [QUOTE] == [QUOTE]
  {
  }

  lemma DecodeOne(s: Text)
    ensures s == [] ==> DecodeAll(s).Some?
    ensures s != [] && !IsSequence(s, 0) ==> DecodeAll(s).None?
    ensures s != [] && IsSequence(s, 0) ==>
              0 < Announced(s[0]) <= |s| && (DecodeAll(s).Some? <==> DecodeAll(s[Announced(s[0])..]).Some?)
  {
    hide IsSequence, Carried;
    if s != [] && IsSequence(s, 0) {
      SequenceLength(s, 0);
    }
  }

  /** How the first sequence of a string is written. */
  function PartText(s: Text, n: nat): Text
    requires s != [] && n <= |s|
  {
    if s[0] < 0x80 then EscapedChar(s[0]) else s[..n]
  }

  /** The reader takes the first sequence of the string as one piece, or stops at it. */
  lemma FirstPiece(text: Text, i: nat, s: Text)
    requires Bytes(s) && s != [] && At(text, i, EscapedText(s) + [QUOTE])
    ensures i <= |text| && Peek(text, i) != QUOTE
    ensures !IsSequence(s, 0) ==> PieceAt(true, text, i).None?
    ensures IsSequence(s, 0) ==>
              var n := Announced(s[0]);
              && 0 < n <= |s| && |EscapedText(s)| == |PartText(s, n)| + |EscapedText(s[n..])|
              && PieceAt(true, text, i) == Some((s[..n], i + |PartText(s, n)|))
              && At(text, i + |PartText(s, n)|, EscapedText(s[n..]) + [QUOTE])
              && (s[0] < 0x80 ==> n == 1)
  {
    hide At, CharAt, IsSequence, Carried, EscapedChar, EscapedText;
    if s[0] < 0x80 {
      EscapedStep(s, 0);
      assert s[0..] == s && s[..1] == [s[0]];
      Assoc(EscapedChar(s[0]), EscapedText(s[1..]), [QUOTE]);
      AtConcat(text, i, EscapedChar(s[0]), EscapedText(s[1..]) + [QUOTE]);
      OneUnit(text, i, s);
    } else {
      ManyUnits(text, i, s);
      if IsSequence(s, 0) {
        SequenceLength(s, 0);
        BeyondAscii(s);
        var n := Announced(s[0]);
        UnescapedPart(s, n);
        Assoc(s[..n], EscapedText(s[n..]), [QUOTE]);
        AtConcat(text, i, s[..n], EscapedText(s[n..]) + [QUOTE]);
        AtSlice(text, i, s[..n]);
      }
    }
  }

  lemma AtSlice(text: Text, i: nat, s: Text)
    requires At(text, i, s)
    ensures i + |s| <= |text| && text[i..i + |s|] == s
  {
  }

  lemma OneUnit(text: Text, i: nat, s: Text)
    requires s != [] && s[0] < 0x80 && At(text, i, EscapedChar(s[0]))
    ensures i <= |text| && Peek(text, i) != QUOTE
    ensures PieceAt(true, text, i) == Some(([s[0]], i + |EscapedChar(s[0])|))
    ensures IsSequence(s, 0) && Announced(s[0]) == 1
  {
    hide CharAt;
    CharBack(text, i, s[0]);
    AtIndex(text, i, EscapedChar(s[0]), 0);
    if EscapeOf(s[0]) == 0 {
      assert text[i..i + 1] == [s[0]];
    }
  }

  /** The first `n` bytes are beyond ASCII, and so written as they are. */
  lemma {:induction false} UnescapedPart(s: Text, n: nat)
    requires n <= |s| && forall k :: 0 <= k < n ==> s[k] >= 0x80
    ensures EscapedText(s) == s[..n] + EscapedText(s[n..])
    decreases n
  {
    hide EscapedText;
    if n == 0 {
      assert s[0..] == s;
    } else {
      UnescapedUnit(s);
      UnescapedPart(s[1..], n - 1);
      assert s[1..][n - 1..] == s[n..];
      assert s[..n] == [s[0]] + s[1..][..n - 1];
    }
  }

  lemma UnescapedUnit(s: Text)
    requires s != [] && s[0] >= 0x80
    ensures EscapedText(s) == [s[0]] + EscapedText(s[1..])
  {
  }

  lemma BeyondAscii(s: Text)
    requires s != [] && s[0] >= 0x80 && IsSequence(s, 0)
    ensures Announced(s[0]) <= |s| && forall k :: 0 <= k < Announced(s[0]) ==> s[k] >= 0x80
  {
  }

  lemma AfterPart(s: Text, n: nat)
    requires n <= |s| && forall k :: 0 <= k < n ==> s[k] >= 0x80
    ensures var t := EscapedText(s) + [QUOTE];
            && |t| > n && (forall k :: 0 <= k < n ==> t[k] == s[k])
            && (t[n] == Peek(s, n) || (t[n] < 0x80 && Peek(s, n) < 0x80))
  {
    UnescapedPart(s, n);
    if n < |s| {
      assert EscapedText(s[n..]) == EscapedChar(s[n]) + EscapedText(s[n..][1..]);
    }
  }

  /** Where a string begins beyond ASCII, its text holds a sequence exactly when it does. */
  lemma ManyUnits(text: Text, i: nat, s: Text)
    requires s != [] && s[0] >= 0x80 && At(text, i, EscapedText(s) + [QUOTE])
    ensures i < |text| && text[i] == s[0]
    ensures IsSequence(text, i) <==> IsSequence(s, 0)
  {
    hide At, EscapedText;
    var t := EscapedText(s) + [QUOTE];
    AfterPart(s, 1);
    AtIndex(text, i, t, 0);
    AtIndex(text, i, t, 1);
    if Tail(Peek(s, 1)) {
      AfterPart(s, 2);
      AtIndex(text, i, t, 2);
      if Tail(Peek(s, 2)) {
        AfterPart(s, 3);
        AtIndex(text, i, t, 3);
      }
    }
  }

  // ----- What a validating reader may still let through -----

  /** An escape that names the second half of a surrogate pair on its own. */
  predicate LoneTrail(text: Text, i: nat) {
    Peek(text, i) == BACKSLASH && Peek(text, i + 1) == 'u' as nat
    && ParseHex4(text, i + 2).Some? && 0xDC00 <= ParseHex4(text, i + 2).value <= 0xDFFF
  }

  predicate HasLoneTrail(text: Text, i: nat)
    requires i <= |text|
    decreases |text| - i
  {
    if Peek(text, i) == QUOTE then false
    else
      match PieceAt(true, text, i)
      case None => false
      case Some((_, j)) => LoneTrail(text, i) || HasLoneTrail(text, j)
  }

  lemma {:induction false} ParsedExtends(validates: bool, text: Text, i: nat, acc: Text)
    requires i <= |text| && ParsedString(validates, text, i, acc).Some?
    ensures acc <= ParsedString(validates, text, i, acc).value.0
    decreases |text| - i
  {
    hide PieceAt;
    if Peek(text, i) != QUOTE {
      var (bytes, j) := PieceAt(validates, text, i).value;
      ParsedExtends(validates, text, j, acc + bytes);
    }
  }

  lemma EscapesAreAscii(e: nat)
    ensures Unescape(e) < 0x80
  {
  }

  lemma PieceIsWellFormed(text: Text, i: nat)
    requires i <= |text| && Peek(text, i) != QUOTE && PieceAt(true, text, i).Some? && !LoneTrail(text, i)
    ensures WellFormed(PieceAt(true, text, i).value.0)
  {
    hide Encode, IsSequence, Carried, ParseHex4;
    var (bytes, j) := PieceAt(true, text, i).value;
    if Peek(text, i) == BACKSLASH {
      var e := Peek(text, i + 1);
      if Unescape(e) != 0 {
        EscapesAreAscii(e);
        OneByteIs(Unescape(e));
        OneIsWellFormed(Unescape(e));
      } else {
        OneIsWellFormed(UnicodeEscape(text, i + 2).value.0);
      }
    } else {
      GrammarIsEncoding(text, i);
      OneIsWellFormed(Carried(text, i));
    }
  }

  lemma SurrogateIsNoSequence(c: nat, rest: Text)
    requires 0xDC00 <= c <= 0xDFFF
    ensures !WellFormed(Encode(c) + rest)
  {
    var s := Encode(c) + rest;
    assert s[0] == 0xED && s[1] >= 0xB0;
    WellFormedDecodes(s);
  }

  /** The string a validating reader reports is UTF-8 exactly when no escape names a trailing surrogate on its own. */
  lemma {:induction false} ValidatedIsWellFormed(text: Text, i: nat, acc: Text)
    requires i <= |text| && WellFormed(acc) && ParsedString(true, text, i, acc).Some?
    ensures WellFormed(ParsedString(true, text, i, acc).value.0) <==> !HasLoneTrail(text, i)
    decreases |text| - i
  {
    hide PieceAt, LoneTrail, WellFormed, Encode;
    if Peek(text, i) != QUOTE {
      var (bytes, j) := PieceAt(true, text, i).value;
      var s := ParsedString(true, text, i, acc).value.0;
      if LoneTrail(text, i) {
        ParsedExtends(true, text, j, acc + bytes);
        var rest := s[|acc + bytes|..];
        LonePiece(text, i);
        assert s == acc + (bytes + rest);
        SurrogateIsNoSequence(UnicodeEscape(text, i + 2).value.0, rest);
        WellFormedConcat(acc, bytes + rest);
      } else {
        PieceIsWellFormed(text, i);
        WellFormedConcat(acc, bytes);
        ValidatedIsWellFormed(text, j, acc + bytes);
      }
    }
  }

  lemma LonePiece(text: Text, i: nat)
    requires i <= |text| && LoneTrail(text, i)
    ensures var u := UnicodeEscape(text, i + 2);
            && u.Some? && 0xDC00 <= u.value.0 <= 0xDFFF
            && PieceAt(true, text, i) == Some((Encode(u.value.0), u.value.1))
  {
    hide ParseHex4, Encode;
  }

  /** "\uDC00" passes a validating reader, and what it reports is not UTF-8. */
  lemma LoneTrailExample()
    ensures var text := [BACKSLASH, 'u' as nat, 'D' as nat, 'C' as nat, '0' as nat, '0' as nat, QUOTE];
            && ParsedString(true, text, 0, []).Some?
            && !WellFormed(ParsedString(true, text, 0, []).value.0)
  {
    var text := [BACKSLASH, 'u' as nat, 'D' as nat, 'C' as nat, '0' as nat, '0' as nat, QUOTE];
    assert ParseHex4(text, 2) == Some(0xDC00);
    LonePiece(text, 0);
    assert PieceAt(true, text, 0).value.1 == 6;
    assert ParsedString(true, text, 6, [] + Encode(0xDC00)).Some?;
    assert EncodeAll([]) == [];
    ValidatedIsWellFormed(text, 0, []);
  }

  lemma PeekShift(s: Text, i: nat, k: nat)
    requires i <= |s|
    ensures Peek(s[i..], k) == Peek(s, i + k)
  {
  }

  lemma SequenceShift(s: Text, i: nat)
    requires i <= |s|
    ensures IsSequence(s[i..], 0) == IsSequence(s, i) && Carried(s[i..], 0) == Carried(s, i)
  {
    hide Peek;
    PeekShift(s, i, 0);
    PeekShift(s, i, 1);
    PeekShift(s, i, 2);
    PeekShift(s, i, 3);
  }

  /** One sequence off the front of what is still to be written. */
  lemma DecodeStep(s: Text, i: nat)
    requires i < |s|
    ensures !IsSequence(s, i) ==> DecodeAll(s[i..]).None?
    ensures IsSequence(s, i) ==>
              && i + Announced(s[i]) <= |s|
              && (DecodeAll(s[i..]).Some? <==> DecodeAll(s[i + Announced(s[i])..]).Some?)
              && (DecodeAll(s[i..]).Some? ==>
                    DecodeAll(s[i..]).value == [Carried(s, i)] + DecodeAll(s[i + Announced(s[i])..]).value)
  {
    hide IsSequence, Carried;
    SequenceShift(s, i);
    if IsSequence(s, i) {
      SequenceLength(s, i);
      assert s[i..][Announced(s[i])..] == s[i + Announced(s[i])..];
    }
  }

  lemma AsciiStep(c: nat, cs: seq<nat>)
    requires AllScalar([c] + cs)
    ensures AllScalar(cs) && IsScalarValue(c) && AsciiText([c] + cs) == AsciiChar(c) + AsciiText(cs)
  {
    hide AsciiChar;
    assert ([c] + cs)[0] == c && ([c] + cs)[1..] == cs;
    assert forall k :: 0 <= k < |cs| ==> cs[k] == ([c] + cs)[k + 1];
  }

  lemma DecodedScalars(s: Text)
    requires DecodeAll(s).Some?
    ensures AllScalar(DecodeAll(s).value)
  {
    DecodeIsEncode(s, DecodeAll(s).value);
  }

  lemma TextOfSequence(ascii: bool, validates: bool, s: Text, i: nat)
    requires i < |s| && (ascii || (validates && EscapeOf(s[i]) == 0))
    ensures !IsSequence(s, i) ==> StringText(ascii, validates, s[i..]).None?
    ensures IsSequence(s, i) ==>
              var n := Announced(s[i]);
              && n > 0 && i + n <= |s| && IsScalarValue(Carried(s, i)) && (s[i] >= 0x80 ==> Carried(s, i) >= 0x80)
              && (StringText(ascii, validates, s[i..]).Some? <==> StringText(ascii, validates, s[i + n..]).Some?)
              && (StringText(ascii, validates, s[i..]).Some? ==>
                    StringText(ascii, validates, s[i..]).value ==
                    (if ascii then AsciiChar(Carried(s, i)) else s[i..i + n]) + StringText(ascii, validates, s[i + n..]).value)
  {
    hide IsSequence, Carried, AsciiChar, DecodeAll, EscapedText, EscapeOf;
    DecodeStep(s, i);
    if IsSequence(s, i) {
      GrammarIsEncoding(s, i);
      CarriedBeyond(s, i);
      var n := Announced(s[i]);
      if DecodeAll(s[i..]).Some? {
        if ascii {
          DecodedScalars(s[i..]);
          DecodedScalars(s[i + n..]);
          AsciiStep(Carried(s, i), DecodeAll(s[i + n..]).value);
        } else {
          WrittenAsIs(s, i);
        }
      }
    }
  }

  lemma CarriedBeyond(s: Text, i: nat)
    requires i < |s| && IsSequence(s, i)
    ensures Announced(s[i]) > 0 && (s[i] >= 0x80 ==> Carried(s, i) >= 0x80)
  {
    hide Encode, At, Carried;
    GrammarIsEncoding(s, i);
    if Carried(s, i) < 0x80 {
      OneByteIs(Carried(s, i));
      AtIndex(s, i, [Carried(s, i)], 0);
    }
  }

  lemma WrittenAsIs(s: Text, i: nat)
    requires i < |s| && IsSequence(s, i) && EscapeOf(s[i]) == 0
    ensures i + Announced(s[i]) <= |s| && EscapedText(s[i..]) == s[i..i + Announced(s[i])] + EscapedText(s[i + Announced(s[i])..])
  {
    hide IsSequence;
    SequenceLength(s, i);
    SequenceShift(s, i);
    var n := Announced(s[i]);
    assert s[i..][n..] == s[i + n..] && s[i..][..n] == s[i..i + n];
    if s[i] < 0x80 {
      EscapedStep(s, i);
      assert s[i..i + 1] == [s[i]];
    } else {
      BeyondAscii(s[i..]);
      UnescapedPart(s[i..], n);
    }
  }

  lemma EscapedStep(s: Text, i: nat)
    requires i < |s|
    ensures EscapedText(s[i..]) == EscapedChar(s[i]) + EscapedText(s[i + 1..])
  {
    assert s[i..][1..] == s[i + 1..];
  }

  lemma TextOfUnit(ascii: bool, validates: bool, s: Text, i: nat)
    requires i < |s| && (s[i] < 0x80 || !(ascii || validates))
    ensures StringText(ascii, validates, s[i..]).Some? <==> StringText(ascii, validates, s[i + 1..]).Some?
    ensures StringText(ascii, validates, s[i..]).Some? ==>
              StringText(ascii, validates, s[i..]).value == EscapedChar(s[i]) + StringText(ascii, validates, s[i + 1..]).value
  {
    hide EscapedChar, DecodeAll, EscapedText, AsciiText;
    EscapedStep(s, i);
    if s[i] < 0x80 {
      DecodeStep(s, i);
      if ascii && DecodeAll(s[i..]).Some? {
        DecodedScalars(s[i..]);
        DecodedScalars(s[i + 1..]);
        AsciiStep(s[i], DecodeAll(s[i + 1..]).value);
      }
    }
  }

  lemma TextOfNothing(ascii: bool, validates: bool)
    ensures StringText(ascii, validates, []) == Some([])
  {
  }

  /** A writer's stream and the two template parameters WriteString looks at. */
  class StringWriter {
    const ascii: bool
    const validates: bool
    var os: Text

    constructor (ascii: bool, validates: bool)
      ensures this.ascii == ascii && this.validates == validates && os == []
    {
      this.ascii, this.validates := ascii, validates;
      os := [];
    }

    method PutUnicode(u: nat)
      requires u <= 0xFFFF
      modifies this
      ensures os == old(os) + FourDigits(u)
    {
      os := os + [HexDigit(u / 4096)];
      os := os + [HexDigit(u / 256 % 16)];
      os := os + [HexDigit(u / 16 % 16)];
      os := os + [HexDigit(u % 16)];
    }

    /** A character beyond ASCII, as one escape or as a surrogate pair. */
    method PutEscape(codepoint: nat)
      requires IsScalarValue(codepoint) && codepoint >= 0x80
      modifies this
      ensures os == old(os) + AsciiChar(codepoint)
    {
      hide FourDigits, UnicodeForm;
      os := os + [BACKSLASH];
      os := os + ['u' as nat];
      if codepoint <= 0xD7FF || 0xE000 <= codepoint <= 0xFFFF {
        PutUnicode(codepoint);
        FormPut(old(os), codepoint);
      } else {
        var v := codepoint - 0x10000;
        FormPut(old(os), v / 1024 + 0xD800);
        FormPut(old(os) + UnicodeForm(v / 1024 + 0xD800), v % 1024 + 0xDC00);
        Assoc(old(os), UnicodeForm(v / 1024 + 0xD800), UnicodeForm(v % 1024 + 0xDC00));
        PutUnicode(v / 1024 + 0xD800);
        os := os + [BACKSLASH];
        os := os + ['u' as nat];
        PutUnicode(v % 1024 + 0xDC00);
      }
    }

    method PutShort(c: nat)
      requires c < 256 && EscapeOf(c) != 0
      modifies this
      ensures os == old(os) + EscapedChar(c)
    {
      os := os + [BACKSLASH];
      os := os + [EscapeOf(c)];
      if EscapeOf(c) == 'u' as nat {
        os := os + ['0' as nat];
        os := os + ['0' as nat];
        os := os + [HexDigit(c / 16)];
        os := os + [HexDigit(c % 16)];
      }
    }

    method WriteString(s: Text) returns (ok: bool)
      requires Bytes(s)
      modifies this
      ensures ok <==> StringText(ascii, validates, s).Some?
      ensures ok ==> os == old(os) + ([QUOTE] + (StringText(ascii, validates, s).value + [QUOTE]))
    {
      hide IsSequence, EscapedChar, AsciiChar, Encode, StringText, DecodeAll, Carried;
      os := os + [QUOTE];
      var input := new StringStream(s);
      ghost var start := os;
      while input.position < |s|
        invariant fresh(input) && input.src == s && input.position <= |s|
        invariant StringText(ascii, validates, s).Some? <==> StringText(ascii, validates, s[input.position..]).Some?
        invariant StringText(ascii, validates, s).Some? ==>
                    start + StringText(ascii, validates, s).value == os + StringText(ascii, validates, s[input.position..]).value
        decreases |s| - input.position
      {
        ghost var i, before, piece := input.position, os, [];
        var c := s[input.position];
        if ascii && c >= 0x80 {
          var codepoint: nat;
          ok, codepoint := Decode(input);
          TextOfSequence(ascii, validates, s, i);
          if !ok {
            return;
          }
          PutEscape(codepoint);
          piece := AsciiChar(codepoint);
        } else if EscapeOf(c) != 0 {
          var taken := input.Take();
          TextOfUnit(ascii, validates, s, i);
          PutShort(c);
          piece := EscapedChar(c);
        } else if validates && !ascii {
          var put: Text;
          ok, put := Validate(input);
          TextOfSequence(ascii, validates, s, i);
          if !ok {
            return;
          }
          os := os + put;
          piece := put;
        } else {
          var taken := input.Take();
          TextOfUnit(ascii, validates, s, i);
          AsItIs(c);
          os := os + [c];
          piece := [c];
        }
        if StringText(ascii, validates, s[input.position..]).Some? {
          Assoc(before, piece, StringText(ascii, validates, s[input.position..]).value);
        }
      }
      TextOfNothing(ascii, validates);
      assert s[input.position..] == [];
      assert os + [] == os;
      Assoc(old(os), [QUOTE], StringText(ascii, validates, s).value);
      Assoc(old(os), [QUOTE] + StringText(ascii, validates, s).value, [QUOTE]);
      Assoc([QUOTE], StringText(ascii, validates, s).value, [QUOTE]);
      os := os + [QUOTE];
      ok := true;
    }
  }

  lemma FormPut(before: Text, u: nat)
    ensures before + [BACKSLASH] + ['u' as nat] + FourDigits(u) == before + UnicodeForm(u)
  {
  }

  lemma AsItIs(c: nat)
    requires EscapeOf(c) == 0
    ensures EscapedChar(c) == [c]
  {
  }
}
