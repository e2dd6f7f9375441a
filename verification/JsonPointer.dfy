/** JSON Pointer as pointer.h parses and prints it, as a string and as a URI fragment. */
module JsonPointers {
  import opened Options
  import opened JsonEvents
  import opened Encodings
  import opened Texts
  import opened JsonLexer
  import opened JsonWriters

  const INVALID_INDEX: nat := 0xFFFF_FFFF

  const SLASH: nat := '/' as nat
  const TILDE: nat := '~' as nat
  const PERCENT: nat := '%' as nat
  const HASH: nat := '#' as nat

  datatype Token = Token(name: Text, index: nat)

  datatype ParseError = TokenMustBeginWithSolidus | InvalidEscape | InvalidPercentEncoding | CharacterMustPercentEncode

  datatype Parsed = Parsed(tokens: seq<Token>) | Failed(error: ParseError, offset: nat)

  // ----- Array indices -----

  /** The conversion loop in 32 bits, from digit `j` on; it gives up when a step makes the number smaller. */
  function IndexFrom(name: Text, j: nat, n: nat): (r: nat)
    requires j <= |name| && AllDigits(name) && n <= INVALID_INDEX
    ensures r <= INVALID_INDEX
    decreases |name| - j
  {
    if j == |name| then n
    else
      var m := (n * 10 + (name[j] - '0' as nat)) % 0x1_0000_0000;
      if m < n then INVALID_INDEX else IndexFrom(name, j + 1, m)
  }

  function IndexOf(name: Text): (r: nat)
    ensures r <= INVALID_INDEX
  {
    if PlainDigits(name) then IndexFrom(name, 0, 0) else INVALID_INDEX
  }

  lemma {:induction false} IndexFromExact(name: Text, j: nat, n: nat)
    requires j <= |name| && AllDigits(name) && DigitsValue(name, j, |name|, n) <= INVALID_INDEX
    ensures n <= INVALID_INDEX && IndexFrom(name, j, n) == DigitsValue(name, j, |name|, n)
    decreases |name| - j
  {
    DigitsGrow(name, j, |name|, n);
    if j < |name| {
      var m := n * 10 + (name[j] - '0' as nat);
      DigitsGrow(name, j + 1, |name|, m);
      InRange(m);
      IndexFromExact(name, j + 1, m);
    }
  }

  lemma InRange(m: nat)
    ensures m <= INVALID_INDEX ==> m % 0x1_0000_0000 == m
  {
  }

  /** The index of a numeral is its value exactly when the value has 32 bits. */
  lemma IndexIsValue(name: Text)
    requires PlainDigits(name)
    ensures IndexOf(name) == DigitsValue(name, 0, |name|, 0) <==> DigitsValue(name, 0, |name|, 0) <= INVALID_INDEX
  {
    if DigitsValue(name, 0, |name|, 0) <= INVALID_INDEX {
      IndexFromExact(name, 0, 0);
    }
  }

  /** 10^10 has 34 bits, and passes the overflow test as a different index. */
  lemma WrappedIndexExample()
    ensures var name := ['1' as nat] + seq(10, _ => '0' as nat); PlainDigits(name) && IndexOf(name) == 1410065408
  {
    var name := ['1' as nat] + seq(10, _ => '0' as nat);
    assert IndexFrom(name, 11, 1410065408) == 1410065408;
    assert IndexFrom(name, 10, 1000000000) == 1410065408;
    assert IndexFrom(name, 9, 100000000) == 1410065408;
    assert IndexFrom(name, 8, 10000000) == 1410065408;
    assert IndexFrom(name, 7, 1000000) == 1410065408;
    assert IndexFrom(name, 6, 100000) == 1410065408;
    assert IndexFrom(name, 5, 10000) == 1410065408;
    assert IndexFrom(name, 4, 1000) == 1410065408;
    assert IndexFrom(name, 3, 100) == 1410065408;
    assert IndexFrom(name, 2, 10) == 1410065408;
    assert IndexFrom(name, 1, 1) == 1410065408;
  }

  // ----- Parsing -----

  /** Everything but the unreserved characters of RFC 3986, section 2.3. */
  predicate NeedPercentEncode(c: nat) {
    !(IsDigit(c) || 'A' as nat <= c <= 'Z' as nat || 'a' as nat <= c <= 'z' as nat
      || c == '-' as nat || c == '.' as nat || c == '_' as nat || c == TILDE)
  }

  /** The byte of a triplet %XY. */
  function TripletAt(source: Text, i: nat): (b: Option<nat>)
    ensures b.Some? ==> b.value < 256 && i + 3 <= |source|
  {
    if i + 3 > |source| || source[i] != PERCENT then None
    else
      match (HexValue(source[i + 1]), HexValue(source[i + 2]))
      case (Some(h), Some(l)) => if h < 16 && l < 16 then Some(h * 16 + l) else None
      case _ => None
  }

  function Triplets(source: Text, i: nat, n: nat): (t: Option<Text>)
    ensures t.Some? ==> |t.value| == n && (n > 0 ==> i + 3 * n <= |source|)
    decreases n
  {
    if n == 0 then Some([])
    else
      match (TripletAt(source, i), Triplets(source, i + 3, n - 1))
      case (Some(b), Some(t)) => Some([b] + t)
      case _ => None
  }

  /** One UTF-8 sequence written in triplets. */
  function PercentSequence(source: Text, i: nat): (t: Option<Text>)
    ensures t.Some? ==> t.value != [] && i + 3 * |t.value| <= |source| && IsSequence(t.value, 0) && Announced(t.value[0]) == |t.value|
  {
    match TripletAt(source, i)
    case None => None
    case Some(b) =>
      match Triplets(source, i, Announced(b))
      case None => None
      case Some(t) => if t != [] && IsSequence(t, 0) && Announced(t[0]) == |t| then Some(t) else None
  }

  datatype Piece = Piece(bytes: Text, next: nat) | Bad(error: ParseError, offset: nat)

  /** "~0" and "~1", from behind the tilde. */
  function Unescaped(source: Text, j: nat): Piece {
    if Peek(source, j) == '0' as nat then Piece([TILDE], j + 1)
    else if Peek(source, j) == '1' as nat then Piece([SLASH], j + 1)
    else Bad(InvalidEscape, j)
  }

  /** One character of a name. */
  function PieceOf(uri: bool, source: Text, i: nat): (p: Piece)
    requires i < |source|
    ensures p.Piece? ==> p.bytes != [] && i + |p.bytes| <= p.next <= |source|
  {
    if uri && source[i] == PERCENT then
      match PercentSequence(source, i)
      case None => Bad(InvalidPercentEncoding, i)
      case Some(t) => if t == [TILDE] then Unescaped(source, i + 3) else Piece(t, i + 3 * |t|)
    else if uri && NeedPercentEncode(source[i]) then Bad(CharacterMustPercentEncode, i)
    else if source[i] == TILDE then Unescaped(source, i + 1)
    else Piece([source[i]], i + 1)
  }

  datatype Named = Named(name: Text, next: nat) | BadName(error: ParseError, offset: nat)

  predicate NameEnds(source: Text, i: nat) {
    i >= |source| || source[i] == SLASH
  }

  function NameFrom(uri: bool, source: Text, i: nat, acc: Text): (n: Named)
    requires i <= |source|
    ensures n.Named? ==> i <= n.next <= |source| && NameEnds(source, n.next) && |acc| <= |n.name| <= |acc| + (n.next - i)
    decreases |source| - i
  {
    if NameEnds(source, i) then Named(acc, i)
    else
      match PieceOf(uri, source, i)
      case Bad(e, o) => BadName(e, o)
      case Piece(bytes, j) => NameFrom(uri, source, j, acc + bytes)
  }

  function TokensFrom(uri: bool, source: Text, i: nat, acc: seq<Token>): Parsed
    requires i <= |source| && NameEnds(source, i)
    decreases |source| - i
  {
    if i == |source| then Parsed(acc)
    else
      match NameFrom(uri, source, i + 1, [])
      case BadName(e, o) => Failed(e, o)
      case Named(name, j) => TokensFrom(uri, source, j, acc + [Token(name, IndexOf(name))])
  }

  /** A '#' in front makes it a URI fragment. */
  function ParsePointer(source: Text): Parsed {
    var uri := Peek(source, 0) == HASH;
    var i := if uri then 1 else 0;
    if !NameEnds(source, i) then Failed(TokenMustBeginWithSolidus, i) else TokensFrom(uri, source, i, [])
  }

  // ----- Printing -----

  function Triplet(b: nat): Text {
    [PERCENT, HexDigit(b / 16), HexDigit(b % 16)]
  }

  function TripletsOf(t: Text): Text {
    if t == [] then [] else Triplet(t[0]) + TripletsOf(t[1..])
  }

  function NameText(uri: bool, name: Text): Option<Text>
    decreases |name|
  {
    if name == [] then Some([])
    else
      var n := if uri && name[0] != SLASH && NeedPercentEncode(name[0]) then Announced(name[0]) else 1;
      if n != 1 && !IsSequence(name, 0) then None
      else
        LengthFits(name);
        match NameText(uri, name[n..])
        case None => None
        case Some(t) =>
          Some((if name[0] == TILDE then [TILDE, '0' as nat]
                else if name[0] == SLASH then [TILDE, '1' as nat]
                else if uri && NeedPercentEncode(name[0]) then TripletsOf(name[..n])
                else [name[0]]) + t)
  }

  lemma LengthFits(name: Text)
    requires name != []
    ensures IsSequence(name, 0) ==> 0 < Announced(name[0]) <= |name|
  {
  }

  function TokensText(uri: bool, names: seq<Text>): Option<Text>
    decreases |names|
  {
    if names == [] then Some([])
    else
      match (NameText(uri, names[0]), TokensText(uri, names[1..]))
      case (Some(t), Some(rest)) => Some([SLASH] + t + rest)
      case _ => None
  }

  function StringifyPointer(uri: bool, names: seq<Text>): Option<Text> {
    match TokensText(uri, names)
    case None => None
    case Some(t) => Some((if uri then [HASH] else []) + t)
  }

  // ----- Printing and parsing undo each other -----

  function TokensOf(names: seq<Text>): seq<Token> {
    seq(|names|, k requires 0 <= k < |names| => Token(names[k], IndexOf(names[k])))
  }

  function NamesOf(tokens: seq<Token>): seq<Text> {
    seq(|tokens|, k requires 0 <= k < |tokens| => tokens[k].name)
  }

  predicate AllBytes(names: seq<Text>) {
    forall k :: 0 <= k < |names| ==> Bytes(names[k])
  }

  lemma TripletBack(source: Text, i: nat, b: nat)
    requires At(source, i, Triplet(b)) && b < 256
    ensures TripletAt(source, i) == Some(b)
  {
    hide At;
    AtFits(source, i, Triplet(b));
    AtIndex(source, i, Triplet(b), 0);
    AtIndex(source, i, Triplet(b), 1);
    AtIndex(source, i, Triplet(b), 2);
    HexDigitBack(b / 16);
    HexDigitBack(b % 16);
  }

  lemma {:induction false} TripletsBack(source: Text, i: nat, t: Text)
    requires At(source, i, TripletsOf(t)) && Bytes(t)
    ensures Triplets(source, i, |t|) == Some(t) && |TripletsOf(t)| == 3 * |t|
    decreases |t|
  {
    hide At, TripletAt;
    if t != [] {
      AtConcat(source, i, Triplet(t[0]), TripletsOf(t[1..]));
      TripletBack(source, i, t[0]);
      TripletsBack(source, i + 3, t[1..]);
      assert [t[0]] + t[1..] == t;
    }
  }

  lemma PrefixSequence(name: Text, n: nat)
    requires name != [] && IsSequence(name, 0) && n == Announced(name[0])
    ensures 0 < n <= |name| && IsSequence(name[..n], 0) && name[..n][0] == name[0]
  {
  }

  /** Length of the first character of a name. */
  function First(uri: bool, name: Text): (n: nat)
    requires name != []
  {
    if uri && name[0] != SLASH && NeedPercentEncode(name[0]) then Announced(name[0]) else 1
  }

  function FirstText(uri: bool, name: Text): Text
    requires name != [] && First(uri, name) <= |name|
  {
    if name[0] == TILDE then [TILDE, '0' as nat]
    else if name[0] == SLASH then [TILDE, '1' as nat]
    else if uri && NeedPercentEncode(name[0]) then TripletsOf(name[..First(uri, name)])
    else [name[0]]
  }

  lemma NameTextStep(uri: bool, name: Text)
    requires name != []
    ensures NameText(uri, name).Some? ==>
              var n := First(uri, name);
              && 0 < n <= |name| && (n != 1 ==> IsSequence(name, 0)) && NameText(uri, name[n..]).Some?
              && NameText(uri, name).value == FirstText(uri, name) + NameText(uri, name[n..]).value
    ensures var n := First(uri, name);
            (n == 1 || IsSequence(name, 0)) && NameText(uri, name[(if n <= |name| then n else 0)..]).Some? ==> NameText(uri, name).Some?
  {
    hide IsSequence, TripletsOf;
    LengthFits(name);
  }

  lemma FirstBack(uri: bool, source: Text, i: nat, name: Text)
    requires name != [] && Bytes(name) && 0 < First(uri, name) <= |name| && (First(uri, name) != 1 ==> IsSequence(name, 0))
    requires At(source, i, FirstText(uri, name))
    ensures i < |source| && !NameEnds(source, i)
    ensures PieceOf(uri, source, i) == Piece(name[..First(uri, name)], i + |FirstText(uri, name)|)
  {
    hide At, IsSequence;
    var t, n := FirstText(uri, name), First(uri, name);
    AtFits(source, i, t);
    if name[0] == TILDE || name[0] == SLASH {
      AtIndex(source, i, t, 0);
      AtIndex(source, i, t, 1);
    } else if uri && NeedPercentEncode(name[0]) {
      OneIsSequence(name);
      PrefixSequence(name, n);
      TripletsBack(source, i, name[..n]);
      assert name[..n] == [name[0]] + name[1..n];
      AtIndex(source, i, t, 0);
      FirstTriplet(source, i, n, name[..n]);
    } else {
      AtIndex(source, i, t, 0);
    }
  }

  lemma OneIsSequence(name: Text)
    requires name != [] && (Announced(name[0]) != 1 ==> IsSequence(name, 0))
    ensures IsSequence(name, 0)
  {
  }

  lemma FirstTriplet(source: Text, i: nat, n: nat, t: Text)
    requires n > 0 && Triplets(source, i, n) == Some(t)
    ensures TripletAt(source, i) == Some(t[0])
  {
    hide TripletAt;
  }

  lemma NoNameText(uri: bool)
    ensures NameText(uri, []) == Some([])
  {
  }

  lemma SubBytes(name: Text)
    requires Bytes(name)
    ensures forall n :: 0 <= n <= |name| ==> Bytes(name[n..])
  {
  }

  /** A printed name is parsed back, byte for byte. */
  lemma {:induction false} NameBack(uri: bool, source: Text, i: nat, name: Text, acc: Text)
    requires Bytes(name) && NameText(uri, name).Some? && At(source, i, NameText(uri, name).value)
    requires i + |NameText(uri, name).value| <= |source| && NameEnds(source, i + |NameText(uri, name).value|)
    ensures i <= |source| && NameFrom(uri, source, i, acc) == Named(acc + name, i + |NameText(uri, name).value|)
    decreases |name|
  {
    hide At, PieceOf, First, FirstText, NameText, Bytes;
    NoNameText(uri);
    SubBytes(name);
    if name == [] {
      assert acc + name == acc;
    } else {
      NameTextStep(uri, name);
      var n := First(uri, name);
      var head, rest := FirstText(uri, name), NameText(uri, name[n..]).value;
      AtConcat(source, i, head, rest);
      FirstBack(uri, source, i, name);
      NameBack(uri, source, i + |head|, name[n..], acc + name[..n]);
      assert acc + name[..n] + name[n..] == acc + name;
    }
  }

  lemma {:induction false} TokensBack(uri: bool, source: Text, i: nat, names: seq<Text>, acc: seq<Token>)
    requires AllBytes(names) && TokensText(uri, names).Some? && At(source, i, TokensText(uri, names).value)
    requires i + |TokensText(uri, names).value| == |source|
    ensures NameEnds(source, i) && TokensFrom(uri, source, i, acc) == Parsed(acc + TokensOf(names))
    decreases |names|
  {
    hide At, NameFrom, NameText, IndexOf;
    if names == [] {
      assert acc + TokensOf(names) == acc;
    } else {
      var name, rest := NameText(uri, names[0]).value, TokensText(uri, names[1..]).value;
      AtConcat(source, i, [SLASH] + name, rest);
      AtConcat(source, i, [SLASH], name);
      AtIndex(source, i, [SLASH], 0);
      TokensBack(uri, source, i + 1 + |name|, names[1..], acc + [Token(names[0], IndexOf(names[0]))]);
      NameBack(uri, source, i + 1, names[0], []);
      assert [] + names[0] == names[0];
      assert acc + [Token(names[0], IndexOf(names[0]))] + TokensOf(names[1..]) == acc + TokensOf(names);
    }
  }

  /** Every list of names that can be printed is parsed back, each with the index of its name. */
  lemma PrintThenParse(uri: bool, names: seq<Text>)
    requires AllBytes(names) && StringifyPointer(uri, names).Some?
    ensures ParsePointer(StringifyPointer(uri, names).value) == Parsed(TokensOf(names))
  {
    hide TokensOf, TokensFrom;
    var t := TokensText(uri, names).value;
    var source := StringifyPointer(uri, names).value;
    var i := if uri then 1 else 0;
    assert source[i..i + |t|] == t;
    SolidusFirst(uri, names);
    TokensBack(uri, source, i, names, []);
    assert [] + TokensOf(names) == TokensOf(names);
  }

  lemma SolidusFirst(uri: bool, names: seq<Text>)
    requires TokensText(uri, names).Some?
    ensures TokensText(uri, names).value == [] || TokensText(uri, names).value[0] == SLASH
  {
  }

  /** Names can always be printed as a string, and as a URI fragment exactly when they are UTF-8. */
  lemma {:induction false} NamePrints(uri: bool, name: Text)
    ensures NameText(uri, name).Some? <==> !uri || WellFormed(name)
    decreases |name|
  {
    hide IsSequence, WellFormed, FirstText;
    WellFormedDecodes(name);
    if name != [] {
      NameTextStep(uri, name);
      AsciiSequence(name);
      LengthFits(name);
      var n := First(uri, name);
      if 0 < n <= |name| {
        NamePrints(uri, name[n..]);
        WellFormedDecodes(name[n..]);
      }
    }
  }

  lemma AsciiSequence(name: Text)
    requires name != []
    ensures name[0] < 0x80 ==> IsSequence(name, 0) && Announced(name[0]) == 1
    ensures name[0] >= 0x80 ==> NeedPercentEncode(name[0]) && Announced(name[0]) != 1
  {
  }

  lemma {:induction false} TokensPrint(uri: bool, names: seq<Text>)
    ensures TokensText(uri, names).Some? <==> forall k :: 0 <= k < |names| ==> !uri || WellFormed(names[k])
    decreases |names|
  {
    hide NameText, WellFormed;
    if names != [] {
      NamePrints(uri, names[0]);
      TokensPrint(uri, names[1..]);
      assert forall k :: 1 <= k < |names| ==> names[k] == names[1..][k - 1];
      assert forall k :: 0 <= k < |names| - 1 ==> names[1..][k] == names[k + 1];
    }
  }

  lemma PointerPrints(uri: bool, names: seq<Text>)
    ensures StringifyPointer(uri, names).Some? <==> forall k :: 0 <= k < |names| ==> !uri || WellFormed(names[k])
  {
    TokensPrint(uri, names);
  }

  // ----- What a parse gives -----

  lemma {:induction false} TripletsAreBytes(source: Text, i: nat, n: nat)
    ensures Triplets(source, i, n).Some? ==> Bytes(Triplets(source, i, n).value)
    decreases n
  {
    hide TripletAt;
    if n > 0 {
      TripletsAreBytes(source, i + 3, n - 1);
      TripletIsByte(source, i);
    }
  }

  lemma TripletIsByte(source: Text, i: nat)
    ensures TripletAt(source, i).Some? ==> TripletAt(source, i).value < 256
  {
  }

  lemma PieceGives(uri: bool, source: Text, i: nat)
    requires i < |source| && Bytes(source) && PieceOf(uri, source, i).Piece?
    ensures Bytes(PieceOf(uri, source, i).bytes) && (uri ==> WellFormed(PieceOf(uri, source, i).bytes))
  {
    hide IsSequence, WellFormed;
    var t := PieceOf(uri, source, i).bytes;
    if uri && source[i] == PERCENT && PercentSequence(source, i) == Some(t) {
      TripletsAreBytes(source, i, |t|);
      GrammarIsEncoding(t, 0);
      var c := Carried(t, 0);
      assert t == t[0..0 + |Encode(c)|];
      OneIsWellFormed(c);
    } else if uri {
      OneByteIs(t[0]);
      OneIsWellFormed(t[0]);
      assert t == [t[0]];
    }
  }

  lemma {:induction false} NameGives(uri: bool, source: Text, i: nat, acc: Text)
    requires i <= |source| && Bytes(source) && Bytes(acc) && (uri ==> WellFormed(acc)) && NameFrom(uri, source, i, acc).Named?
    ensures Bytes(NameFrom(uri, source, i, acc).name) && (uri ==> WellFormed(NameFrom(uri, source, i, acc).name))
    decreases |source| - i
  {
    hide PieceOf, WellFormed;
    if !NameEnds(source, i) {
      var p := PieceOf(uri, source, i);
      PieceGives(uri, source, i);
      if uri {
        WellFormedConcat(acc, p.bytes);
      }
      NameGives(uri, source, p.next, acc + p.bytes);
    }
  }

  ghost predicate GoodTokens(uri: bool, tokens: seq<Token>) {
    forall k :: 0 <= k < |tokens| ==>
      Bytes(tokens[k].name) && tokens[k].index == IndexOf(tokens[k].name) && (uri ==> WellFormed(tokens[k].name))
  }

  lemma {:induction false} TokensGive(uri: bool, source: Text, i: nat, acc: seq<Token>)
    requires i <= |source| && NameEnds(source, i) && Bytes(source) && GoodTokens(uri, acc)
    requires TokensFrom(uri, source, i, acc).Parsed?
    ensures GoodTokens(uri, TokensFrom(uri, source, i, acc).tokens)
    decreases |source| - i
  {
    hide NameFrom, WellFormed, Bytes, IndexOf;
    if i < |source| {
      var n := NameFrom(uri, source, i + 1, []);
      EmptyIsWellFormed();
      NameGives(uri, source, i + 1, []);
      TokensGive(uri, source, n.next, acc + [Token(n.name, IndexOf(n.name))]);
    }
  }

  lemma EmptyIsWellFormed()
    ensures WellFormed([]) && Bytes([])
  {
    assert EncodeAll([]) == [];
  }

  /**
   * What was parsed can be printed in either form it came from, or as a string,
   * and parsing that gives the same tokens with the same indices.
   */
  lemma ParseThenPrint(source: Text, uri: bool)
    requires Bytes(source) && ParsePointer(source).Parsed? && (uri ==> Peek(source, 0) == HASH)
    ensures var names := NamesOf(ParsePointer(source).tokens);
            && StringifyPointer(uri, names).Some?
            && ParsePointer(StringifyPointer(uri, names).value) == ParsePointer(source)
  {
    hide TokensFrom, WellFormed, Bytes, StringifyPointer, IndexOf;
    var tokens := ParsePointer(source).tokens;
    TokensGive(Peek(source, 0) == HASH, source, if Peek(source, 0) == HASH then 1 else 0, []);
    var names := NamesOf(tokens);
    PointerPrints(uri, names);
    PrintThenParse(uri, names);
    assert TokensOf(names) == tokens;
  }

  // ----- How much room the tokens and their names take -----

  function Slashes(source: Text, i: nat): nat
    requires i <= |source|
    decreases |source| - i
  {
    if i == |source| then 0 else (if source[i] == SLASH then 1 else 0) + Slashes(source, i + 1)
  }

  /** Units of all names, each with its terminator. */
  function Room(tokens: seq<Token>): nat {
    if tokens == [] then 0 else Room(tokens[..|tokens| - 1]) + |tokens[|tokens| - 1].name| + 1
  }

  lemma {:induction false} NoSlashes(source: Text, i: nat, j: nat)
    requires i <= j <= |source| && forall k :: i <= k < j ==> source[k] != SLASH
    ensures Slashes(source, i) == Slashes(source, j)
    decreases j - i
  {
    if i < j {
      NoSlashes(source, i + 1, j);
    }
  }

  lemma {:induction false} TripletsHaveNoSlash(source: Text, i: nat, n: nat)
    requires Triplets(source, i, n).Some?
    ensures forall k :: i <= k < i + 3 * n ==> k < |source| && source[k] != SLASH
    decreases n
  {
    if n > 0 {
      TripletsHaveNoSlash(source, i + 3, n - 1);
    }
  }

  lemma PieceHasNoSlash(uri: bool, source: Text, i: nat)
    requires i < |source| && source[i] != SLASH && PieceOf(uri, source, i).Piece?
    ensures forall k :: i <= k < PieceOf(uri, source, i).next ==> source[k] != SLASH
  {
    hide IsSequence;
    if uri && source[i] == PERCENT {
      TripletsHaveNoSlash(source, i, |PercentSequence(source, i).value|);
    }
  }

  lemma {:induction false} NameHasNoSlash(uri: bool, source: Text, i: nat, acc: Text)
    requires i <= |source| && NameFrom(uri, source, i, acc).Named?
    ensures Slashes(source, i) == Slashes(source, NameFrom(uri, source, i, acc).next)
    decreases |source| - i
  {
    hide PieceOf;
    if !NameEnds(source, i) {
      var p := PieceOf(uri, source, i);
      PieceHasNoSlash(uri, source, i);
      NoSlashes(source, i, p.next);
      NameHasNoSlash(uri, source, p.next, acc + p.bytes);
    }
  }

  /** One token for every '/', and all names with their terminators fit into the length of the source. */
  lemma {:induction false} TokensFit(uri: bool, source: Text, i: nat, acc: seq<Token>)
    requires i <= |source| && NameEnds(source, i) && Room(acc) <= i && TokensFrom(uri, source, i, acc).Parsed?
    ensures var ts := TokensFrom(uri, source, i, acc).tokens;
            |ts| == |acc| + Slashes(source, i) && Room(ts) <= |source|
    decreases |source| - i
  {
    hide NameFrom, IndexOf;
    if i < |source| {
      var n := NameFrom(uri, source, i + 1, []);
      NameHasNoSlash(uri, source, i + 1, []);
      NameIsShort(uri, source, i + 1);
      var acc' := acc + [Token(n.name, IndexOf(n.name))];
      assert acc'[..|acc|] == acc;
      TokensFit(uri, source, n.next, acc');
    }
  }

  lemma NameIsShort(uri: bool, source: Text, i: nat)
    requires i <= |source| && NameFrom(uri, source, i, []).Named?
    ensures i + |NameFrom(uri, source, i, []).name| <= NameFrom(uri, source, i, []).next
  {
  }

  lemma ParsedFits(source: Text)
    requires ParsePointer(source).Parsed?
    ensures var ts := ParsePointer(source).tokens; |ts| == Slashes(source, 0) && Room(ts) <= |source|
  {
    hide TokensFrom;
    var uri := Peek(source, 0) == HASH;
    TokensFit(uri, source, if uri then 1 else 0, []);
  }

  // ----- The parser over its two buffers -----

  /** Reads a triplet as one unit; what is no triplet reads as 0 and spoils the stream. */
  class PercentDecodeStream {
    const source: Text
    var position: nat
    var valid: bool

    constructor (source: Text, i: nat)
      ensures this.source == source && position == i && valid
    {
      this.source, position, valid := source, i, true;
    }

    method Take() returns (c: nat)
      modifies this
      ensures valid ==> old(valid) && TripletAt(source, old(position)) == Some(c) && position == old(position) + 3
      ensures old(valid) && !valid ==> TripletAt(source, old(position)).None?
      ensures c < 256 && (c != 0 ==> valid || !old(valid))
    {
      if Peek(source, position) != PERCENT || position + 3 > |source| {
        valid := false;
        return 0;
      }
      ghost var start := position;
      position := position + 1;
      c := 0;
      for j := 0 to 2
        invariant position == start + 1 + j && valid == old(valid) && start + 3 <= |source|
        invariant j == 0 ==> c == 0
        invariant j >= 1 ==> HexValue(source[start + 1]).Some? && HexValue(source[start + 1]).value < 16
        invariant j == 1 ==> c == HexValue(source[start + 1]).value
        invariant j == 2 ==> HexValue(source[start + 2]).Some? && HexValue(source[start + 2]).value < 16
                             && c == HexValue(source[start + 1]).value * 16 + HexValue(source[start + 2]).value
      {
        c := c * 16;
        var h := source[position];
        if '0' as nat <= h <= '9' as nat {
          c := c + h - '0' as nat;
        } else if 'A' as nat <= h <= 'F' as nat {
          c := c + h - 'A' as nat + 10;
        } else if 'a' as nat <= h <= 'f' as nat {
          c := c + h - 'a' as nat + 10;
        } else {
          valid := false;
          return 0;
        }
        position := position + 1;
      }
    }
  }

  /** The stream has given the first `k` units of the sequence at `i`, and they stand at `p`; or it is spoilt. */
  ghost predicate Taken(input: PercentDecodeStream, names: array<nat>, i: nat, p: nat, k: nat)
    requires p + k <= names.Length
    reads input, names
  {
    if input.valid then input.position == i + 3 * k && Triplets(input.source, i, k) == Some(names[p..p + k])
    else Triplets(input.source, i, k).None?
  }

  /** The next unit of a percent-encoded sequence, taken and put into the name buffer. */
  method PutUnit(input: PercentDecodeStream, names: array<nat>, i: nat, p: nat, k: nat, mask: bv8) returns (good: bool)
    requires p + k < names.Length && Taken(input, names, i, p, k)
    modifies input, names
    ensures names[p + k] < 256 && forall j :: 0 <= j < p + k ==> names[j] == old(names[j])
    ensures good <==> HasType(names[p + k], mask)
    ensures Taken(input, names, i, p, k + 1) && (old(input.valid) && !input.valid ==> names[p + k] == 0)
  {
    hide TripletAt, Triplets, GetRange;
    var c := input.Take();
    names[p + k] := c;
    good := GetRange(c) & mask != 0;
    TripletsSnoc(input.source, i, k);
    assert names[p..p + k] == old(names[p..p + k]);
    assert names[p..p + (k + 1)] == names[p..p + k] + [c];
  }

  predicate RestOk(units: Text, mask: bv8) {
    && |units| >= 2 && HasType(units[1], mask)
    && (|units| > 2 ==> Tail(units[2]))
    && (|units| > 3 ==> Tail(units[3]))
  }

  /** The units behind the first one: one whose type is in `mask`, then tails. */
  method PutRest(input: PercentDecodeStream, names: array<nat>, i: nat, p: nat, n: nat, mask: bv8) returns (ok: bool)
    requires 2 <= n <= 4 && p + n <= names.Length && Taken(input, names, i, p, 1) && names[p] < 256
    modifies input, names
    ensures Taken(input, names, i, p, n) && forall j :: 0 <= j <= p ==> names[j] == old(names[j])
    ensures Bytes(names[p..p + n]) && (ok <==> RestOk(names[p..p + n], mask))
  {
    hide Triplets, HasType, Tail, Taken;
    ok := PutUnit(input, names, i, p, 1, mask);
    ghost var b1 := names[p + 1];
    if n == 2 {
      assert names[p..p + 2] == [names[p], b1];
      return;
    }
    var good := PutUnit(input, names, i, p, 2, 0x70);
    ghost var b2 := names[p + 2];
    TailType(b2);
    ok := ok && good;
    if n == 3 {
      assert names[p..p + 3] == [names[p], b1, b2];
      return;
    }
    good := PutUnit(input, names, i, p, 3, 0x70);
    TailType(names[p + 3]);
    ok := ok && good;
    assert names[p..p + 4] == [names[p], b1, b2, names[p + 3]];
  }

  lemma NoRest(units: Text, mask: bv8)
    requires |units| == 1
    ensures !RestOk(units, mask)
  {
  }

  predicate HasType(c: nat, mask: bv8) {
    c < 256 && GetRange(c) & mask != 0
  }

  lemma TailType(c: nat)
    requires c < 256
    ensures HasType(c, 0x70) <==> Tail(c)
  {
    Masks(c);
  }

  /**
   * UTF8::Validate from a percent-decoding stream into the name buffer.
   * The units written stay inside the buffer, on malformed input too.
   */
  method DecodePercent(source: Text, names: array<nat>, i: nat, p: nat) returns (ok: bool, length: nat)
    requires p < i < |source| == names.Length
    modifies names
    ensures names[..p] == old(names[..p])
    ensures ok <==> PercentSequence(source, i).Some?
    ensures ok ==> length == |PercentSequence(source, i).value| && p + length <= |source|
                   && names[p..p + length] == PercentSequence(source, i).value
  {
    hide TripletAt, Triplets, PercentSequence, GetRange, FirstBits, IsSequence, RestOk;
    var input := new PercentDecodeStream(source, i);
    NoTriplets(source, i);
    assert names[p..p + 0] == [];
    var good := PutUnit(input, names, i, p, 0, 0);
    var c := names[p];
    length := 1;
    OneTriplet(source, i);
    if c < 0x80 {
      ok := input.valid;
      AsciiSequence(names[p..p + 1]);
      Verdict(source, i, names[p..p + 1], ok);
      return;
    }
    FirstByte(c);
    var t := GetRange(c);
    if t == 2 {
      ok := PutRest(input, names, i, p, 2, 0x70);
      length := 2;
    } else if t == 3 || t == 4 || t == 10 {
      ok := PutRest(input, names, i, p, 3, if t == 3 then 0x70 else if t == 4 then 0x50 else 0x20);
      length := 3;
    } else if t == 5 || t == 6 || t == 11 {
      ok := PutRest(input, names, i, p, 4, if t == 5 then 0x10 else if t == 6 then 0x70 else 0x60);
      length := 4;
    } else {
      ok := false;
      NoRest(names[p..p + 1], MaskOf(t));
    }
    ghost var units := names[p..p + length];
    SequenceVerdict(units, ok);
    Verdict(source, i, units, input.valid);
    ok := ok && input.valid;
  }

  /** The types of first bytes and the masks behind them are the grammar. */
  lemma SequenceVerdict(units: Text, ok: bool)
    requires units != [] && Bytes(units) && units[0] >= 0x80
    requires |units| == (if Announced(units[0]) == 0 then 1 else Announced(units[0]))
    requires ok <==> RestOk(units, MaskOf(GetRange(units[0])))
    ensures ok <==> IsSequence(units, 0)
  {
    hide GetRange;
    FirstByte(units[0]);
    if |units| > 1 {
      Masks(units[1]);
    }
  }

  function MaskOf(t: bv8): bv8 {
    if t == 4 then 0x50 else if t == 10 then 0x20 else if t == 5 then 0x10 else if t == 11 then 0x60 else 0x70
  }

  lemma OneTriplet(source: Text, i: nat)
    ensures Triplets(source, i, 1).Some? <==> TripletAt(source, i).Some?
    ensures Triplets(source, i, 1).Some? ==> i + 3 <= |source| && Triplets(source, i, 1).value == [TripletAt(source, i).value]
  {
    hide TripletAt;
    NoTriplets(source, i + 3);
    if TripletAt(source, i).Some? {
      assert [TripletAt(source, i).value] + [] == [TripletAt(source, i).value];
    }
  }

  /** What was taken decides, once the first byte has said how much there was to take. */
  lemma Verdict(source: Text, i: nat, units: Text, valid: bool)
    requires units != [] && |units| == (if Announced(units[0]) == 0 then 1 else Announced(units[0]))
    requires if valid then Triplets(source, i, |units|) == Some(units) else Triplets(source, i, |units|).None?
    requires TripletAt(source, i) == Some(units[0]) || (TripletAt(source, i).None? && !valid)
    ensures PercentSequence(source, i) == if valid && IsSequence(units, 0) then Some(units) else None
  {
    hide TripletAt, Triplets;
  }

  lemma NoTriplets(source: Text, i: nat)
    ensures Triplets(source, i, 0) == Some([])
  {
  }

  lemma {:induction false} TripletsSnoc(source: Text, i: nat, k: nat)
    ensures Triplets(source, i, k).None? || TripletAt(source, i + 3 * k).None? ==> Triplets(source, i, k + 1).None?
    ensures Triplets(source, i, k).Some? && TripletAt(source, i + 3 * k).Some? ==>
              Triplets(source, i, k + 1) == Some(Triplets(source, i, k).value + [TripletAt(source, i + 3 * k).value])
    decreases k
  {
    hide TripletAt;
    if k == 0 {
      assert Triplets(source, i + 3, 0) == Some([]);
      if TripletAt(source, i).Some? {
        assert [TripletAt(source, i).value] + [] == [] + [TripletAt(source, i).value];
      }
    } else {
      TripletsSnoc(source, i + 3, k - 1);
      assert i + 3 + 3 * (k - 1) == i + 3 * k;
      if Triplets(source, i, k).Some? && TripletAt(source, i + 3 * k).Some? {
        var b, rest, last := TripletAt(source, i).value, Triplets(source, i + 3, k - 1).value, TripletAt(source, i + 3 * k).value;
        assert [b] + (rest + [last]) == [b] + rest + [last];
      }
    }
  }

  /** A token as it is stored: its name lies in the name buffer, from `start` on. */
  datatype Slot = Slot(start: nat, length: nat, index: nat)

  class GenericPointer {
    var tokens: array<Slot>
    var tokenCount: nat
    var nameBuffer: array<nat>
    var error: Option<(ParseError, nat)>

    constructor ()
      ensures tokenCount == 0 && error.None? && fresh(tokens) && fresh(nameBuffer)
    {
      tokens, nameBuffer := new Slot[0], new nat[0];
      tokenCount, error := 0, None;
    }

    /** The arrays hold the tokens: each name lies in the buffer with its terminator behind it. */
    ghost predicate Holds(ts: seq<Token>)
      reads this, tokens, nameBuffer
    {
      Stored(tokens[..], nameBuffer[..], tokenCount, ts)
    }

    /** Parses into buffers sized by the number of '/' and the length of the source. */
    method Parse(source: Text)
      modifies this
      ensures var r := ParsePointer(source);
              if r.Parsed? then error.None? && Holds(r.tokens) && tokens.Length == |r.tokens| && nameBuffer.Length == |source|
              else error == Some((r.error, r.offset)) && tokenCount == 0
    {
      hide TokensFrom, Slashes, Stored;
      var count := CountSlashes(source);
      var slots, names := new Slot[count](_ => Slot(0, 0, 0)), new nat[|source|](_ => 0);
      tokens, nameBuffer, tokenCount, error := slots, names, count, None;
      var i := 0;
      var uri := false;
      if Peek(source, i) == HASH {
        uri := true;
        i := i + 1;
      }
      if i != |source| && source[i] != SLASH {
        tokenCount, error := 0, Some((TokenMustBeginWithSolidus, i));
        return;
      }
      StartParse(source, i);
      var failure: Option<ParseError>;
      i, failure := ParseTokens(uri, source, i, slots, names);
      if failure.Some? {
        tokenCount, error := 0, Some((failure.value, i));
      }
    }

    /** Prints the tokens it holds, as a string or as a URI fragment. */
    method Stringify(uri: bool, ghost ts: seq<Token>) returns (os: Option<Text>)
      requires Holds(ts) && forall k :: 0 <= k < |ts| ==> Bytes(ts[k].name)
      ensures os == StringifyPointer(uri, NamesOf(ts))
    {
      hide NameText, Bytes, TokensText;
      var text: Text := if uri then [HASH] else [];
      ghost var names, start := NamesOf(ts), text;
      for t := 0 to tokenCount
        invariant TokensText(uri, names[t..]).Some? <==> TokensText(uri, names).Some?
        invariant TokensText(uri, names).Some? ==> text + TokensText(uri, names[t..]).value == start + TokensText(uri, names).value
      {
        TokensTextStep(uri, names, t);
        var slot := tokens[t];
        assert Stores(slot, nameBuffer[..], ts[t]);
        var name := nameBuffer[slot.start..slot.start + slot.length];
        assert name == nameBuffer[..][slot.start..slot.start + slot.length];
        text := text + [SLASH];
        var printed := PrintName(uri, name);
        if printed.None? {
          return None;
        }
        ghost var before := text;
        text := text + printed.value;
        if TokensText(uri, names[t + 1..]).Some? {
          Assoc(before, printed.value, TokensText(uri, names[t + 1..]).value);
        }
      }
      NoTokensText(uri);
      assert names[tokenCount..] == [] && text + [] == text;
      os := Some(text);
    }
  }

  lemma NoTokensText(uri: bool)
    ensures TokensText(uri, []) == Some([])
  {
  }

  lemma TokensTextStep(uri: bool, names: seq<Text>, t: nat)
    requires t < |names|
    ensures TokensText(uri, names[t..]).Some? <==> NameText(uri, names[t]).Some? && TokensText(uri, names[t + 1..]).Some?
    ensures TokensText(uri, names[t..]).Some? ==>
              forall before: Text :: before + TokensText(uri, names[t..]).value ==
                before + [SLASH] + (NameText(uri, names[t]).value + TokensText(uri, names[t + 1..]).value)
  {
    hide NameText;
    assert names[t..][0] == names[t] && names[t..][1..] == names[t + 1..];
    if TokensText(uri, names[t..]).Some? {
      var name, rest := NameText(uri, names[t]).value, TokensText(uri, names[t + 1..]).value;
      forall before: Text ensures before + TokensText(uri, names[t..]).value == before + [SLASH] + (name + rest) {
        assert TokensText(uri, names[t..]).value == [SLASH] + name + rest;
        Assoc([SLASH], name, rest);
        Assoc(before, [SLASH], name + rest);
      }
    }
  }

  /** The loop over the characters of one name. */
  method PrintName(uri: bool, name: Text) returns (os: Option<Text>)
    requires Bytes(name)
    ensures os == NameText(uri, name)
  {
    hide NameText, IsSequence, NeedPercentEncode, Bytes;
    var text: Text := [];
    var input := new StringStream(name);
    assert name[0..] == name;
    while input.position < |name|
      invariant fresh(input) && input.src == name && input.position <= |name|
      invariant NameText(uri, name[input.position..]).Some? <==> NameText(uri, name).Some?
      invariant NameText(uri, name).Some? ==> text + NameText(uri, name[input.position..]).value == NameText(uri, name).value
      decreases |name| - input.position
    {
      ghost var j, before := input.position, text;
      PrintStep(uri, name, j);
      var c := name[input.position];
      if c == TILDE {
        text := text + [TILDE];
        text := text + ['0' as nat];
        input.position := input.position + 1;
      } else if c == SLASH {
        text := text + [TILDE];
        text := text + ['1' as nat];
        input.position := input.position + 1;
      } else if uri && NeedPercentEncode(c) {
        var ok, put := Validate(input);
        if !ok {
          return None;
        }
        var triplets := PutTriplets(put);
        text := text + triplets;
      } else {
        text := text + [c];
        input.position := input.position + 1;
      }
      if NameText(uri, name[input.position..]).Some? {
        Assoc(before, CharText(uri, name, j), NameText(uri, name[input.position..]).value);
      }
    }
    NoNameText(uri);
    assert name[|name|..] == [] && text + [] == text;
    os := Some(text);
  }

  /** How the character at `j` is printed. */
  function CharText(uri: bool, name: Text, j: nat): Text
    requires j < |name|
  {
    if name[j] == TILDE then [TILDE] + ['0' as nat]
    else if name[j] == SLASH then [TILDE] + ['1' as nat]
    else if uri && NeedPercentEncode(name[j]) then
      if j + Announced(name[j]) <= |name| then TripletsOf(name[j..j + Announced(name[j])]) else []
    else [name[j]]
  }

  lemma PrintStep(uri: bool, name: Text, j: nat)
    requires j < |name|
    ensures var n := if uri && name[j] != SLASH && name[j] != TILDE && NeedPercentEncode(name[j]) then Announced(name[j]) else 1;
            && (IsSequence(name, j) ==> 0 < Announced(name[j]) && j + Announced(name[j]) <= |name|)
            && (n != 1 && !IsSequence(name, j) ==> NameText(uri, name[j..]).None?)
            && (n == 1 && uri && NeedPercentEncode(name[j]) && name[j] != SLASH ==> IsSequence(name, j))
            && (n == 1 || IsSequence(name, j) ==>
                  && j + n <= |name|
                  && (NameText(uri, name[j..]).Some? <==> NameText(uri, name[j + n..]).Some?)
                  && (NameText(uri, name[j..]).Some? ==>
                        NameText(uri, name[j..]).value == CharText(uri, name, j) + NameText(uri, name[j + n..]).value))
  {
    hide IsSequence, TripletsOf, NameText;
    var rest := name[j..];
    NameTextStep(uri, rest);
    SequenceAt(name, j);
    var n := First(uri, rest);
    if n <= |rest| {
      assert rest[n..] == name[j + n..] && rest[..n] == name[j..j + n];
    }
    if n != 1 && !IsSequence(rest, 0) {
      NameTextNone(uri, rest);
    }
  }

  lemma SequenceAt(name: Text, j: nat)
    requires j < |name|
    ensures IsSequence(name[j..], 0) == IsSequence(name, j)
    ensures IsSequence(name, j) ==> 0 < Announced(name[j]) && j + Announced(name[j]) <= |name|
    ensures name[j] < 0x80 ==> Announced(name[j]) == 1 && IsSequence(name, j)
    ensures name[j] >= 0x80 ==> Announced(name[j]) != 1
  {
    assert forall k: nat :: Peek(name[j..], k) == Peek(name, j + k);
  }

  lemma NameTextNone(uri: bool, name: Text)
    requires name != [] && First(uri, name) != 1 && !IsSequence(name, 0)
    ensures NameText(uri, name).None?
  {
  }

  method PutTriplets(t: Text) returns (os: Text)
    ensures os == TripletsOf(t)
  {
    os := [];
    for k := 0 to |t|
      invariant os + TripletsOf(t[k..]) == TripletsOf(t)
    {
      assert t[k..][0] == t[k] && t[k..][1..] == t[k + 1..];
      ghost var before := os;
      os := os + [PERCENT];
      os := os + [HexDigit(t[k] / 16)];
      os := os + [HexDigit(t[k] % 16)];
      assert os == before + Triplet(t[k]);
      Assoc(before, Triplet(t[k]), TripletsOf(t[k + 1..]));
    }
    assert os + [] == os;
  }

  method ParseTokens(uri: bool, source: Text, i0: nat, slots: array<Slot>, names: array<nat>)
    returns (i: nat, failure: Option<ParseError>)
    requires i0 <= |source| == names.Length && NameEnds(source, i0) && slots.Length == Slashes(source, i0)
    modifies slots, names
    ensures var r := TokensFrom(uri, source, i0, []);
            if r.Parsed? then failure.None? && Stored(slots[..], names[..], slots.Length, r.tokens) && |r.tokens| == slots.Length
            else failure == Some(r.error) && i == r.offset
  {
    hide NameFrom, TokensFrom, Slashes, IndexOf, Stored, Below;
    var p, t := 0, 0;
    i := i0;
    ghost var acc: seq<Token> := [];
    NothingStored(slots[..], names[..]);
    while i < |source|
      invariant p <= i <= |source| && NameEnds(source, i)
      invariant t + Slashes(source, i) == slots.Length && |acc| == t
      invariant TokensFrom(uri, source, i, acc) == TokensFrom(uri, source, i0, [])
      invariant Stored(slots[..], names[..], t, acc) && Below(slots[..], t, p)
      decreases |source| - i
    {
      ghost var before := names[..];
      TokensStep(uri, source, i, acc);
      i := i + 1;
      var start := p;
      var isNumber;
      i, p, isNumber, failure := ParseName(uri, source, names, i, p);
      if failure.Some? {
        return;
      }
      StoredKept(slots[..], before, names[..], t, acc, start);
      ghost var name := names[start..p];
      StoreToken(slots, names, t, start, p, isNumber, acc);
      p := p + 1;
      t := t + 1;
      acc := acc + [Token(name, IndexOf(name))];
    }
    AllParsed(uri, source, acc);
    failure := None;
  }

  /** The terminator behind a name, and its token. */
  method StoreToken(slots: array<Slot>, names: array<nat>, t: nat, start: nat, p: nat, isNumber: bool, ghost acc: seq<Token>)
    requires t < slots.Length && start <= p < names.Length && (isNumber <==> AllDigits(names[start..p]))
    requires Stored(slots[..], names[..], t, acc) && Below(slots[..], t, start)
    modifies slots, names
    ensures var name := old(names[start..p]);
            Stored(slots[..], names[..], t + 1, acc + [Token(name, IndexOf(name))]) && Below(slots[..], t + 1, p + 1)
  {
    hide IndexOf, Stored, Below, AllDigits;
    ghost var before, beforeSlots, name := names[..], slots[..], names[start..p];
    var length := p - start;
    names[p] := 0;
    assert names[start..start + length] == name;
    var index := ToIndex(names, start, length, isNumber);
    slots[t] := Slot(start, length, index);
    StoredMore(beforeSlots, before, slots[..], names[..], t, acc, start, name, p + 1);
  }

  lemma StoredKept(slots: seq<Slot>, names: Text, names': Text, t: nat, acc: seq<Token>, start: nat)
    requires Stored(slots, names, t, acc) && Below(slots, t, start) && start <= |names| == |names'|
    requires forall j :: 0 <= j < start ==> names'[j] == names[j]
    ensures Stored(slots, names', t, acc)
  {
    forall k | 0 <= k < t ensures Stores(slots[k], names', acc[k]) {
      var a, b := slots[k].start, slots[k].start + slots[k].length;
      assert names'[a..b] == names[a..b];
    }
  }

  method CountSlashes(source: Text) returns (count: nat)
    ensures count == Slashes(source, 0)
  {
    count := 0;
    for s := 0 to |source|
      invariant count + Slashes(source, s) == Slashes(source, 0)
    {
      if source[s] == SLASH {
        count := count + 1;
      }
    }
  }

  lemma StartParse(source: Text, i: nat)
    requires i == (if Peek(source, 0) == HASH then 1 else 0) && NameEnds(source, i)
    ensures i <= |source| && Slashes(source, i) == Slashes(source, 0)
    ensures TokensFrom(i == 1, source, i, []) == ParsePointer(source)
  {
    NoSlashes(source, 0, i);
  }

  lemma AllParsed(uri: bool, source: Text, acc: seq<Token>)
    ensures TokensFrom(uri, source, |source|, acc) == Parsed(acc) && Slashes(source, |source|) == 0
  {
  }

  lemma TokensStep(uri: bool, source: Text, i: nat, acc: seq<Token>)
    requires i < |source| && source[i] == SLASH
    ensures var n := NameFrom(uri, source, i + 1, []);
            && TokensFrom(uri, source, i, acc) ==
               (if n.BadName? then Failed(n.error, n.offset) else TokensFrom(uri, source, n.next, acc + [Token(n.name, IndexOf(n.name))]))
            && Slashes(source, i) == 1 + Slashes(source, i + 1)
            && (n.Named? ==> Slashes(source, i + 1) == Slashes(source, n.next))
  {
    hide NameFrom, IndexOf;
    if NameFrom(uri, source, i + 1, []).Named? {
      NameHasNoSlash(uri, source, i + 1, []);
    }
  }

  lemma NothingStored(slots: seq<Slot>, names: Text)
    ensures Stored(slots, names, 0, []) && Below(slots, 0, 0)
  {
  }

  /** The first `n` slots hold the tokens `ts`. */
  ghost predicate Stored(slots: seq<Slot>, names: Text, n: nat, ts: seq<Token>) {
    && |ts| == n <= |slots|
    && forall k :: 0 <= k < n ==> Stores(slots[k], names, ts[k])
  }

  ghost predicate Stores(slot: Slot, names: Text, token: Token) {
    && slot.start + slot.length < |names|
    && names[slot.start..slot.start + slot.length] == token.name && names[slot.start + slot.length] == 0
    && slot.index == token.index
  }

  ghost predicate Below(slots: seq<Slot>, n: nat, p: nat)
    requires n <= |slots|
  {
    forall k :: 0 <= k < n ==> slots[k].start + slots[k].length < p
  }

  lemma StoredMore(slots: seq<Slot>, names: Text, slots': seq<Slot>, names': Text, t: nat, acc: seq<Token>,
                   start: nat, name: Text, p': nat)
    requires Stored(slots, names, t, acc) && Below(slots, t, start) && t < |slots| && |names| == |names'|
    requires p' == start + |name| + 1 <= |names'| && names'[start..start + |name|] == name && names'[p' - 1] == 0
    requires forall j :: 0 <= j < start ==> names'[j] == names[j]
    requires slots' == slots[t := Slot(start, |name|, IndexOf(name))]
    ensures Stored(slots', names', t + 1, acc + [Token(name, IndexOf(name))]) && Below(slots', t + 1, p')
  {
    hide IndexOf;
    var acc' := acc + [Token(name, IndexOf(name))];
    forall k | 0 <= k < t ensures Stores(slots'[k], names', acc'[k]) {
      assert slots'[k] == slots[k] && acc'[k] == acc[k];
      var a, b := slots[k].start, slots[k].start + slots[k].length;
      assert names'[a..b] == names[a..b];
    }
  }

  /** One name, decoded into the buffer from `p0` on. */
  method ParseName(uri: bool, source: Text, names: array<nat>, i0: nat, p0: nat)
    returns (i: nat, p: nat, isNumber: bool, failure: Option<ParseError>)
    requires p0 < i0 <= |source| == names.Length
    modifies names
    ensures forall j :: 0 <= j < p0 ==> names[j] == old(names[j])
    ensures var n := NameFrom(uri, source, i0, []);
            if n.Named? then
              && failure.None? && i == n.next && p0 <= p < i && names[p0..p] == n.name
              && (isNumber <==> AllDigits(n.name))
            else failure == Some(n.error) && i == n.offset
  {
    hide PieceOf, AllDigits, NameFrom;
    i, p, isNumber, failure := i0, p0, true, None;
    ghost var acc: Text := [];
    NoDigits();
    while i < |source| && source[i] != SLASH
      invariant i0 <= i <= |source| && p0 <= p && p - p0 <= i - i0 && failure.None?
      invariant acc == names[p0..p] && forall j :: 0 <= j < p0 ==> names[j] == old(names[j])
      invariant NameFrom(uri, source, i, acc) == NameFrom(uri, source, i0, [])
      invariant isNumber <==> AllDigits(acc)
      decreases |source| - i
    {
      NameStep(uri, source, i, acc);
      ghost var piece := PieceOf(uri, source, i);
      ghost var start := p;
      var digit;
      i, p, digit, failure := ParsePiece(uri, source, names, i, p);
      if failure.Some? {
        return;
      }
      assert names[p0..start] == acc;
      assert names[p0..p] == names[p0..start] + names[start..p];
      DigitMore(acc, piece.bytes);
      isNumber := isNumber && digit;
      acc := acc + piece.bytes;
    }
    NameDone(uri, source, i, acc);
  }

  /** One character of a name, decoded into the buffer; `digit` tells whether it is one. */
  method ParsePiece(uri: bool, source: Text, names: array<nat>, i0: nat, p0: nat)
    returns (i: nat, p: nat, digit: bool, failure: Option<ParseError>)
    requires p0 < i0 < |source| == names.Length && source[i0] != SLASH
    modifies names
    ensures forall j :: 0 <= j < p0 ==> names[j] == old(names[j])
    ensures var piece := PieceOf(uri, source, i0);
            if piece.Piece? then
              && failure.None? && i == piece.next && p == p0 + |piece.bytes| <= names.Length && names[p0..p] == piece.bytes
              && (digit <==> AllDigits(piece.bytes))
            else failure == Some(piece.error) && i == piece.offset
  {
    hide PieceOf, PercentSequence, Unescaped, AllDigits;
    i, p, digit, failure := i0, p0, false, None;
    PieceIs(uri, source, i);
    var c := source[i];
    if uri {
      if c == PERCENT {
        var ok, length := DecodePercent(source, names, i, p);
        if !ok {
          failure := Some(InvalidPercentEncoding);
          return;
        }
        SequenceIs(source, i);
        i := i + 3 * length - 1;
        if length == 1 {
          c := names[p];
          assert names[p..p + 1] == [c];
        } else {
          LongSequence(names[p..p + length]);
          p := p + length;
          i := i + 1;
          return;
        }
      } else if NeedPercentEncode(c) {
        failure := Some(CharacterMustPercentEncode);
        return;
      }
    }
    i := i + 1;
    if c == TILDE {
      var there;
      there, c := TakeEscape(source, i);
      if !there {
        failure := Some(InvalidEscape);
        return;
      }
      i := i + 1;
    }
    OneDigit(c);
    digit := '0' as nat <= c <= '9' as nat;
    names[p] := c;
    p := p + 1;
    assert names[p0..p] == [c];
  }

  /** What a tilde stands for together with the character behind it. */
  method TakeEscape(source: Text, i: nat) returns (there: bool, c: nat)
    ensures if there then Unescaped(source, i) == Piece([c], i + 1) && i < |source| else Unescaped(source, i) == Bad(InvalidEscape, i)
  {
    there, c := false, 0;
    if i < |source| {
      c := source[i];
      if c == '0' as nat {
        there, c := true, TILDE;
      } else if c == '1' as nat {
        there, c := true, SLASH;
      }
    }
  }

  lemma NameStep(uri: bool, source: Text, i: nat, acc: Text)
    requires i < |source| && source[i] != SLASH
    ensures var piece := PieceOf(uri, source, i);
            && (piece.Piece? ==> piece.bytes != [] && i + |piece.bytes| <= piece.next <= |source|)
            && NameFrom(uri, source, i, acc) ==
               if piece.Bad? then BadName(piece.error, piece.offset) else NameFrom(uri, source, piece.next, acc + piece.bytes)
  {
    hide PieceOf;
  }

  lemma NameDone(uri: bool, source: Text, i: nat, acc: Text)
    requires i <= |source| && NameEnds(source, i)
    ensures NameFrom(uri, source, i, acc) == Named(acc, i)
  {
  }

  lemma SequenceIs(source: Text, i: nat)
    requires PercentSequence(source, i).Some?
    ensures var t := PercentSequence(source, i).value; t != [] && IsSequence(t, 0) && Announced(t[0]) == |t| && i + 3 * |t| <= |source|
  {
  }

  lemma NoDigits()
    ensures AllDigits([])
  {
  }

  lemma OneDigit(c: nat)
    ensures AllDigits([c]) <==> IsDigit(c)
  {
    assert [c][0] == c;
  }

  lemma DigitMore(acc: Text, t: Text)
    ensures AllDigits(acc + t) <==> AllDigits(acc) && AllDigits(t)
  {
    assert forall k :: 0 <= k < |acc| ==> acc[k] == (acc + t)[k];
    assert forall k :: 0 <= k < |t| ==> t[k] == (acc + t)[|acc| + k];
  }

  lemma LongSequence(t: Text)
    requires |t| > 1 && IsSequence(t, 0) && Announced(t[0]) == |t|
    ensures !AllDigits(t)
  {
    assert !IsDigit(t[0]);
  }

  lemma PieceIs(uri: bool, source: Text, i: nat)
    requires i < |source|
    ensures uri && source[i] == PERCENT ==>
              PieceOf(uri, source, i) ==
              match PercentSequence(source, i)
              case None => Bad(InvalidPercentEncoding, i)
              case Some(t) => if t == [TILDE] then Unescaped(source, i + 3) else Piece(t, i + 3 * |t|)
    ensures uri && source[i] != PERCENT && NeedPercentEncode(source[i]) ==> PieceOf(uri, source, i) == Bad(CharacterMustPercentEncode, i)
    ensures !(uri && (source[i] == PERCENT || NeedPercentEncode(source[i]))) ==>
              PieceOf(uri, source, i) == if source[i] == TILDE then Unescaped(source, i + 1) else Piece([source[i]], i + 1)
  {
  }

  /** The two checks for a number and the conversion. */
  method ToIndex(names: array<nat>, start: nat, length: nat, digits: bool) returns (index: nat)
    requires start + length < names.Length && (digits <==> AllDigits(names[start..start + length]))
    ensures index == IndexOf(names[start..start + length])
  {
    ghost var name := names[start..start + length];
    var isNumber := digits;
    if length == 0 {
      isNumber := false;
    }
    if isNumber && length > 1 && names[start] == '0' as nat {
      isNumber := false;
    }
    var n := 0;
    if isNumber {
      for j := 0 to length
        invariant n <= INVALID_INDEX && IndexFrom(name, j, n) == IndexFrom(name, 0, 0)
      {
        assert name[j] == names[start + j];
        var m := (n * 10 + (names[start + j] - '0' as nat)) % 0x1_0000_0000;
        if m < n {
          isNumber := false;
          break;
        }
        n := m;
      }
    }
    index := if isNumber then n else INVALID_INDEX;
  }
}
