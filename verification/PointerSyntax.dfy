/** JSON pointers as RFC 6901 spells them, what the parser accepts of them, and the spelling that is printed. */
module PointerSyntaxes {
  import opened Options
  import opened JsonEvents
  import opened Encodings
  import opened Texts
  import opened JsonLexer
  import opened JsonWriters
  import opened JsonPointers
  import S = JsonSyntaxes
  import U = JsonSpellings

  /**
   * A character of a name: itself; "~0" or "~1", where a fragment may have the tilde in a triplet `hex`;
   * or the UTF-8 bytes of one character in triplets.
   */
  datatype Mark = Bare(c: nat) | Escape(hex: Option<Text>, digit: nat) | Percent(digits: seq<Text>)

  type Name = seq<Mark>

  // ----- Texts -----

  function HexText(digits: seq<Text>): Text {
    if digits == [] then [] else [0x25] + (digits[0] + HexText(digits[1..]))
  }

  function MarkText(m: Mark): Text {
    match m
    case Bare(c) => [c]
    case Escape(None, d) => [0x7E, d]
    case Escape(Some(h), d) => [0x25] + (h + [d])
    case Percent(ds) => HexText(ds)
  }

  function MarksText(name: Name): Text {
    if name == [] then [] else MarkText(name[0]) + MarksText(name[1..])
  }

  function NamesText(names: seq<Name>): Text {
    if names == [] then [] else [0x2F] + (MarksText(names[0]) + NamesText(names[1..]))
  }

  function PointerText(uri: bool, names: seq<Name>): Text {
    (if uri then [0x23] else []) + NamesText(names)
  }

  // ----- What is well formed -----

  /** Section 2.3 of RFC 3986, but the tilde. */
  predicate Unreserved(c: nat) {
    0x30 <= c <= 0x39 || 0x41 <= c <= 0x5A || 0x61 <= c <= 0x7A || c == 0x2D || c == 0x2E || c == 0x5F
  }

  predicate HexPair(h: Text) {
    |h| == 2 && forall k :: 0 <= k < 2 ==> 0x30 <= h[k] <= 0x39 || 0x41 <= h[k] <= 0x46 || 0x61 <= h[k] <= 0x66
  }

  function ByteOf(h: Text): nat {
    if |h| == 2 then 0x10 * S.NibbleOf(h[0]) + S.NibbleOf(h[1]) else 0
  }

  predicate HexPairs(digits: seq<Text>) {
    forall k :: 0 <= k < |digits| ==> HexPair(digits[k])
  }

  function BytesOf(digits: seq<Text>): Text {
    seq(|digits|, k requires 0 <= k < |digits| => ByteOf(digits[k]))
  }

  ghost predicate OneCharacter(bytes: Text) {
    exists c :: IsScalarValue(c) && bytes == Encode(c)
  }

  ghost predicate MarkOk(uri: bool, m: Mark) {
    match m
    case Bare(c) => c != 0x2F && c != 0x7E && (uri ==> Unreserved(c))
    case Escape(h, d) => (d == 0x30 || d == 0x31) && (h.Some? ==> uri && HexPair(h.value) && ByteOf(h.value) == 0x7E)
    case Percent(ds) => uri && HexPairs(ds) && OneCharacter(BytesOf(ds)) && BytesOf(ds) != [0x7E]
  }

  ghost predicate NameOk(uri: bool, name: Name) {
    forall k :: 0 <= k < |name| ==> MarkOk(uri, name[k])
  }

  ghost predicate NamesOk(uri: bool, names: seq<Name>) {
    forall k :: 0 <= k < |names| ==> NameOk(uri, names[k])
  }

  // ----- What is meant -----

  function MarkValue(m: Mark): Text {
    match m
    case Bare(c) => [c]
    case Escape(_, d) => if d == 0x30 then [0x7E] else [0x2F]
    case Percent(ds) => BytesOf(ds)
  }

  function NameValue(name: Name): Text {
    if name == [] then [] else MarkValue(name[0]) + NameValue(name[1..])
  }

  function NameValues(names: seq<Name>): seq<Text> {
    if names == [] then [] else [NameValue(names[0])] + NameValues(names[1..])
  }

  /** The names, each with its index as a number if it is one. */
  ghost predicate Means(source: Text, values: seq<Text>) {
    exists uri: bool, names: seq<Name> :: NamesOk(uri, names) && source == PointerText(uri, names) && values == NameValues(names)
  }

  // ----- A spelled mark is parsed -----

  lemma HexIs(c: nat)
    ensures HexValue(c).Some? <==> 0x30 <= c <= 0x39 || 0x41 <= c <= 0x46 || 0x61 <= c <= 0x66
    ensures HexValue(c).Some? ==> HexValue(c).value == S.NibbleOf(c)
  {
  }

  lemma ReadTriplet(source: Text, i: nat, h: Text)
    requires HexPair(h) && At(source, i, [0x25] + h)
    ensures TripletAt(source, i) == Some(ByteOf(h)) && i + 3 <= |source| && source[i] == 0x25
  {
    hide At, HexValue, S.NibbleOf;
    var t := [0x25] + h;
    AtFits(source, i, t);
    AtIndex(source, i, t, 0);
    AtIndex(source, i, t, 1);
    AtIndex(source, i, t, 2);
    HexIs(h[0]);
    HexIs(h[1]);
  }

  lemma {:induction false} ReadTriplets(source: Text, i: nat, ds: seq<Text>)
    requires HexPairs(ds) && At(source, i, HexText(ds))
    ensures Triplets(source, i, |ds|) == Some(BytesOf(ds)) && |HexText(ds)| == 3 * |ds|
    decreases |ds|
  {
    hide At, TripletAt, HexPair, ByteOf;
    if ds != [] {
      assert HexPair(ds[0]) && HexPairs(ds[1..]);
      PairLength(ds[0]);
      assert HexText(ds) == ([0x25] + ds[0]) + HexText(ds[1..]);
      AtConcat(source, i, [0x25] + ds[0], HexText(ds[1..]));
      ReadTriplet(source, i, ds[0]);
      ReadTriplets(source, i + 3, ds[1..]);
      assert BytesOf(ds) == [ByteOf(ds[0])] + BytesOf(ds[1..]);
    }
  }

  lemma PairLength(h: Text)
    requires HexPair(h)
    ensures |h| == 2
  {
  }

  /** The bytes of one character are one sequence of the grammar. */
  lemma CharacterIs(t: Text)
    ensures OneCharacter(t) <==> t != [] && IsSequence(t, 0) && Announced(t[0]) == |t|
  {
    hide IsSequence, Encode, Announced, Carried;
    if OneCharacter(t) {
      var c :| IsScalarValue(c) && t == Encode(c);
      EncodeSome(c);
      assert t[0..0 + |Encode(c)|] == Encode(c);
      assert Encoded(t, 0, c);
      GrammarIsEncoding(t, 0);
    }
    if t != [] && IsSequence(t, 0) && Announced(t[0]) == |t| {
      GrammarIsEncoding(t, 0);
      var c := Carried(t, 0);
      assert t == t[0..0 + |Encode(c)|];
    }
  }

  lemma ReadSequence(source: Text, i: nat, ds: seq<Text>)
    requires HexPairs(ds) && OneCharacter(BytesOf(ds)) && At(source, i, HexText(ds))
    ensures i + 3 * |ds| <= |source| && |HexText(ds)| == 3 * |ds| && source[i] == 0x25 && |BytesOf(ds)| == |ds|
    ensures PercentSequence(source, i) == Some(BytesOf(ds))
  {
    hide At, TripletAt, IsSequence, Announced, ByteOf, HexPair, HexText;
    CharacterIs(BytesOf(ds));
    ReadTriplets(source, i, ds);
    FirstTriplet(source, i, |BytesOf(ds)|, BytesOf(ds));
    TripletStarts(source, i);
  }

  lemma TripletStarts(source: Text, i: nat)
    requires TripletAt(source, i).Some?
    ensures i + 3 <= |source| && source[i] == 0x25
  {
  }

  /** A mark is taken as its value. */
  lemma MarkRead(uri: bool, source: Text, i: nat, m: Mark)
    requires MarkOk(uri, m) && At(source, i, MarkText(m))
    ensures i < |source| && !NameEnds(source, i)
    ensures PieceOf(uri, source, i) == Piece(MarkValue(m), i + |MarkText(m)|)
  {
    hide At, IsSequence, HexPair, HexPairs, PercentSequence, OneCharacter, HexText, ByteOf, BytesOf;
    AtFits(source, i, MarkText(m));
    match m
    case Bare(c) =>
      AtIndex(source, i, [c], 0);
    case Escape(None, d) =>
      AtIndex(source, i, [0x7E, d], 0);
      AtIndex(source, i, [0x7E, d], 1);
    case Escape(Some(h), d) =>
      TildeRead(source, i, h, d);
    case Percent(ds) =>
      ReadSequence(source, i, ds);
  }

  lemma TildeRead(source: Text, i: nat, h: Text, d: nat)
    requires HexPair(h) && ByteOf(h) == 0x7E && At(source, i, [0x25] + (h + [d]))
    ensures |h| == 2 && i + 4 <= |source| && source[i] == 0x25 && source[i + 3] == d
    ensures PercentSequence(source, i) == Some([0x7E])
  {
    hide At, TripletAt, IsSequence, HexPair, Announced;
    PairLength(h);
    assert [0x25] + (h + [d]) == ([0x25] + h) + [d];
    AtConcat(source, i, [0x25] + h, [d]);
    AtIndex(source, i + 3, [d], 0);
    var ds := [h];
    assert HexText(ds) == [0x25] + h by {
      assert ds[1..] == [];
      assert h + [] == h;
    }
    assert BytesOf(ds) == [0x7E];
    OneByteIs(0x7E);
    ReadSequence(source, i, ds);
  }

  /** The marks in front are taken one by one. */
  lemma {:induction false} NameRead(uri: bool, source: Text, i: nat, name: Name, acc: Text)
    requires NameOk(uri, name) && At(source, i, MarksText(name))
    ensures i + |MarksText(name)| <= |source|
    ensures NameFrom(uri, source, i, acc) == NameFrom(uri, source, i + |MarksText(name)|, acc + NameValue(name))
    decreases |name|
  {
    hide At, MarkOk, MarkText, MarkValue, PieceOf;
    AtFits(source, i, MarksText(name));
    if name == [] {
      assert acc + NameValue(name) == acc;
    } else {
      var m, rest := name[0], name[1..];
      AtConcat(source, i, MarkText(m), MarksText(rest));
      MarkRead(uri, source, i, m);
      NameRead(uri, source, i + |MarkText(m)|, rest, acc + MarkValue(m));
      assert acc + MarkValue(m) + NameValue(rest) == acc + NameValue(name);
    }
  }

  lemma {:induction false} NamesRead(uri: bool, source: Text, i: nat, names: seq<Name>, acc: seq<Token>)
    requires NamesOk(uri, names) && At(source, i, NamesText(names))
    requires NameEnds(source, i + |NamesText(names)|)
    ensures i + |NamesText(names)| <= |source| && NameEnds(source, i)
    ensures TokensFrom(uri, source, i, acc) == TokensFrom(uri, source, i + |NamesText(names)|, acc + TokensOf(NameValues(names)))
    decreases |names|
  {
    hide At, NameFrom, MarksText, NameValue, NameOk, IndexOf;
    AtFits(source, i, NamesText(names));
    if names == [] {
      assert acc + TokensOf(NameValues(names)) == acc;
    } else {
      var t, rest := MarksText(names[0]), NamesText(names[1..]);
      AtConcat(source, i, [0x2F], t + rest);
      AtIndex(source, i, [0x2F], 0);
      AtConcat(source, i + 1, t, rest);
      var j, v := i + 1 + |t|, NameValue(names[0]);
      NamesRead(uri, source, j, names[1..], acc + [Token(v, IndexOf(v))]);
      NameRead(uri, source, i + 1, names[0], []);
      NameStops(uri, source, j, [] + v);
      assert [] + v == v;
      assert acc + [Token(v, IndexOf(v))] + TokensOf(NameValues(names[1..])) == acc + TokensOf(NameValues(names));
    }
  }

  lemma NameStops(uri: bool, source: Text, i: nat, acc: Text)
    requires i <= |source| && NameEnds(source, i)
    ensures NameFrom(uri, source, i, acc) == Named(acc, i)
  {
  }

  lemma StartsRight(uri: bool, names: seq<Name>)
    ensures var source := PointerText(uri, names);
            (Peek(source, 0) == 0x23 <==> uri) && At(source, if uri then 1 else 0, NamesText(names))
  {
    hide MarksText;
    var source, i := PointerText(uri, names), if uri then 1 else 0;
    assert source[i..i + |NamesText(names)|] == NamesText(names);
  }

  lemma SpelledIsParsed(uri: bool, names: seq<Name>)
    requires NamesOk(uri, names)
    ensures ParsePointer(PointerText(uri, names)) == Parsed(TokensOf(NameValues(names)))
  {
    hide At, NamesText, TokensOf, NamesOk;
    var source, i := PointerText(uri, names), if uri then 1 else 0;
    StartsRight(uri, names);
    NamesRead(uri, source, i, names, []);
    AllParsed(uri, source, [] + TokensOf(NameValues(names)));
    assert [] + TokensOf(NameValues(names)) == TokensOf(NameValues(names));
  }

  // ----- What is parsed is spelled -----

  lemma TripletBack(source: Text, i: nat)
    requires TripletAt(source, i).Some?
    ensures i + 3 <= |source|
    ensures var h := source[i + 1..i + 3]; HexPair(h) && ByteOf(h) == TripletAt(source, i).value && At(source, i, [0x25] + h)
  {
    hide HexValue, S.NibbleOf;
    HexIs(source[i + 1]);
    HexIs(source[i + 2]);
    assert source[i..i + 3] == [0x25] + source[i + 1..i + 3];
  }

  lemma NothingAt(text: Text, i: nat)
    requires i <= |text|
    ensures At(text, i, [])
  {
  }

  lemma {:induction false} TripletsBack(source: Text, i: nat, n: nat) returns (ds: seq<Text>)
    requires i <= |source| && Triplets(source, i, n).Some?
    ensures |ds| == n && HexPairs(ds) && BytesOf(ds) == Triplets(source, i, n).value && At(source, i, HexText(ds))
    decreases n
  {
    hide At, TripletAt, HexPair, ByteOf;
    if n == 0 {
      ds := [];
      NothingAt(source, i);
    } else {
      TripletBack(source, i);
      var h := source[i + 1..i + 3];
      var rest := TripletsBack(source, i + 3, n - 1);
      ds := [h] + rest;
      assert ds[1..] == rest;
      AtJoin(source, i, [0x25] + h, HexText(rest));
      assert [0x25] + h + HexText(rest) == HexText(ds);
    }
  }

  lemma SequenceBack(source: Text, i: nat) returns (ds: seq<Text>)
    requires PercentSequence(source, i).Some?
    ensures HexPairs(ds) && OneCharacter(BytesOf(ds)) && BytesOf(ds) == PercentSequence(source, i).value
    ensures At(source, i, HexText(ds)) && |HexText(ds)| == 3 * |ds|
  {
    hide At, TripletAt, IsSequence, BytesOf, HexText;
    var t := PercentSequence(source, i).value;
    TripletStarts(source, i);
    ds := TripletsBack(source, i, Announced(TripletAt(source, i).value));
    CharacterIs(t);
    ReadTriplets(source, i, ds);
  }

  lemma ReservedIs(c: nat)
    ensures NeedPercentEncode(c) <==> !Unreserved(c) && c != 0x7E
  {
  }

  /** What is taken is a mark. */
  lemma MarkBack(uri: bool, source: Text, i: nat) returns (m: Mark)
    requires i < |source| && !NameEnds(source, i) && PieceOf(uri, source, i).Piece?
    ensures MarkOk(uri, m) && At(source, i, MarkText(m))
    ensures PieceOf(uri, source, i) == Piece(MarkValue(m), i + |MarkText(m)|)
  {
    hide IsSequence, HexPair, HexPairs, PercentSequence, OneCharacter, NeedPercentEncode;
    ReservedIs(source[i]);
    if uri && source[i] == PERCENT {
      var ds := SequenceBack(source, i);
      if BytesOf(ds) == [0x7E] {
        m := TildeBack(source, i, ds);
      } else {
        m := Percent(ds);
      }
    } else if source[i] == TILDE {
      m := Escape(None, source[i + 1]);
      assert source[i..i + 2] == [0x7E, source[i + 1]];
    } else {
      m := Bare(source[i]);
    }
  }

  lemma TildeBack(source: Text, i: nat, ds: seq<Text>) returns (m: Mark)
    requires HexPairs(ds) && BytesOf(ds) == [0x7E] && At(source, i, HexText(ds)) && |HexText(ds)| == 3
    requires i + 3 < |source| && (source[i + 3] == 0x30 || source[i + 3] == 0x31)
    ensures MarkOk(true, m) && At(source, i, MarkText(m)) && |MarkText(m)| == 4
    ensures MarkValue(m) == if source[i + 3] == 0x30 then [0x7E] else [0x2F]
  {
    hide At, HexPair, ByteOf;
    var d := source[i + 3];
    assert |ds| == |BytesOf(ds)| == 1;
    assert ds[1..] == [] && HexText([]) == [];
    assert HexText(ds) == [0x25] + ds[0];
    PairLength(ds[0]);
    assert BytesOf(ds)[0] == ByteOf(ds[0]);
    AtOne(source, i + 3);
    AtJoin(source, i, [0x25] + ds[0], [d]);
    assert [0x25] + ds[0] + [d] == [0x25] + (ds[0] + [d]);
    m := Escape(Some(ds[0]), d);
  }

  lemma {:induction false} NameBackwards(uri: bool, source: Text, i: nat, acc: Text) returns (name: Name)
    requires i <= |source| && NameFrom(uri, source, i, acc).Named?
    ensures NameOk(uri, name) && At(source, i, MarksText(name))
    ensures NameFrom(uri, source, i, acc) == Named(acc + NameValue(name), i + |MarksText(name)|)
    decreases |source| - i
  {
    hide At, MarkOk, MarkText, MarkValue, PieceOf;
    if NameEnds(source, i) {
      name := [];
      NothingAt(source, i);
      assert acc + [] == acc;
    } else {
      var m := MarkBack(uri, source, i);
      var rest := NameBackwards(uri, source, i + |MarkText(m)|, acc + MarkValue(m));
      name := [m] + rest;
      assert name[1..] == rest;
      AtJoin(source, i, MarkText(m), MarksText(rest));
      assert acc + MarkValue(m) + NameValue(rest) == acc + (MarkValue(m) + NameValue(rest));
    }
  }

  lemma {:induction false} NamesBackwards(uri: bool, source: Text, i: nat, acc: seq<Token>) returns (names: seq<Name>)
    requires i <= |source| && NameEnds(source, i) && TokensFrom(uri, source, i, acc).Parsed?
    ensures NamesOk(uri, names) && At(source, i, NamesText(names)) && i + |NamesText(names)| == |source|
    ensures TokensFrom(uri, source, i, acc).tokens == acc + TokensOf(NameValues(names))
    decreases |source| - i
  {
    hide At, NameFrom, MarksText, NameValue, NameOk, IndexOf;
    if i == |source| {
      names := [];
      NothingAt(source, i);
      assert acc + TokensOf([]) == acc;
    } else {
      var name := NameBackwards(uri, source, i + 1, []);
      var j, v := i + 1 + |MarksText(name)|, NameValue(name);
      assert [] + v == v;
      var rest := NamesBackwards(uri, source, j, acc + [Token(v, IndexOf(v))]);
      names := [name] + rest;
      assert names[1..] == rest;
      AtOne(source, i);
      AtJoin(source, i + 1, MarksText(name), NamesText(rest));
      AtJoin(source, i, [0x2F], MarksText(name) + NamesText(rest));
      assert acc + [Token(v, IndexOf(v))] + TokensOf(NameValues(rest)) == acc + TokensOf(NameValues(names));
    }
  }

  lemma ParsedIsSpelled(source: Text)
    requires ParsePointer(source).Parsed?
    ensures exists values :: Means(source, values) && ParsePointer(source) == Parsed(TokensOf(values))
  {
    hide NamesText, TokensOf, NamesOk;
    var uri := Peek(source, 0) == HASH;
    var i := if uri then 1 else 0;
    var names := NamesBackwards(uri, source, i, []);
    assert [] + TokensOf(NameValues(names)) == TokensOf(NameValues(names));
    assert source == source[..i] + source[i..i + |NamesText(names)|];
    assert source == PointerText(uri, names);
    assert Means(source, NameValues(names));
  }

  lemma SameTokens(a: seq<Text>, b: seq<Text>)
    requires TokensOf(a) == TokensOf(b)
    ensures a == b
  {
    assert |a| == |TokensOf(a)| && |b| == |TokensOf(b)|;
    forall k | 0 <= k < |a| ensures a[k] == b[k] {
      assert TokensOf(a)[k].name == a[k] && TokensOf(b)[k].name == b[k];
    }
  }

  /** The parser accepts what RFC 6901 spells, and gives the names it spells. */
  lemma AcceptedIsPointer(source: Text, values: seq<Text>)
    ensures ParsePointer(source) == Parsed(TokensOf(values)) <==> Means(source, values)
    ensures ParsePointer(source).Parsed? <==> exists vs :: Means(source, vs)
  {
    hide TokensOf, NamesOk, PointerText, ParsePointer;
    forall vs | Means(source, vs) ensures ParsePointer(source) == Parsed(TokensOf(vs)) {
      var uri: bool, names: seq<Name> :| NamesOk(uri, names) && source == PointerText(uri, names) && vs == NameValues(names);
      SpelledIsParsed(uri, names);
    }
    if ParsePointer(source).Parsed? {
      ParsedIsSpelled(source);
      var vs :| Means(source, vs) && ParsePointer(source) == Parsed(TokensOf(vs));
      if ParsePointer(source) == Parsed(TokensOf(values)) {
        SameTokens(vs, values);
      }
    }
  }

  // ----- What is wrong with a text that is refused -----

  /** No character in UTF-8 is written in triplets at `i`. */
  ghost predicate NoTriplets(source: Text, i: nat) {
    forall ds: seq<Text> :: HexPairs(ds) && OneCharacter(BytesOf(ds)) ==> !At(source, i, HexText(ds))
  }

  /** A tilde, in a fragment perhaps as a triplet. */
  ghost predicate IsTilde(uri: bool, t: Text) {
    t == [0x7E] || (uri && exists h :: HexPair(h) && ByteOf(h) == 0x7E && t == [0x25] + h)
  }

  /** At the offset stands what the error says, behind `behind`. */
  ghost predicate Fault(uri: bool, source: Text, offset: nat, behind: Text, error: ParseError) {
    match error
    case TokenMustBeginWithSolidus => false
    case InvalidEscape => IsTilde(uri, behind) && Peek(source, offset) != 0x30 && Peek(source, offset) != 0x31
    case InvalidPercentEncoding => uri && behind == [] && Peek(source, offset) == 0x25 && NoTriplets(source, offset)
    case CharacterMustPercentEncode =>
      && uri && behind == [] && offset < |source| && !Unreserved(source[offset])
      && source[offset] != 0x7E && source[offset] != 0x2F && source[offset] != 0x25
  }

  /** Well-formed names lead to the place, the last of them broken off there. */
  ghost predicate BreaksOff(uri: bool, source: Text, names: seq<Name>, behind: Text, offset: nat) {
    && NamesOk(uri, names) && names != [] && offset <= |source| && source[..offset] == PointerText(uri, names) + behind
  }

  ghost predicate FailsWith(source: Text, error: ParseError, offset: nat) {
    if error.TokenMustBeginWithSolidus? then
      offset == (if Peek(source, 0) == 0x23 then 1 else 0) && offset < |source| && source[offset] != 0x2F
    else
      exists uri: bool, names: seq<Name>, behind: Text ::
        BreaksOff(uri, source, names, behind, offset) && Fault(uri, source, offset, behind, error)
  }

  lemma TripletsFail(source: Text, i: nat)
    requires i <= |source|
    ensures PercentSequence(source, i).None? <==> NoTriplets(source, i)
  {
    hide At, PercentSequence, HexPairs, OneCharacter, BytesOf, HexText;
    if PercentSequence(source, i).Some? {
      var ds := SequenceBack(source, i);
    }
    forall ds: seq<Text> | HexPairs(ds) && OneCharacter(BytesOf(ds)) && At(source, i, HexText(ds))
      ensures PercentSequence(source, i).Some?
    {
      ReadSequence(source, i, ds);
    }
  }

  lemma TripletTilde(source: Text, i: nat) returns (h: Text)
    requires PercentSequence(source, i) == Some([0x7E])
    ensures HexPair(h) && ByteOf(h) == 0x7E && At(source, i, [0x25] + h) && i + 3 <= |source|
  {
    hide At, PercentSequence, HexPair, ByteOf;
    var ds := SequenceBack(source, i);
    assert |ds| == |BytesOf(ds)| == 1;
    assert ds[1..] == [] && HexText([]) == [];
    assert HexText(ds) == [0x25] + (ds[0] + []);
    assert ds[0] + [] == ds[0];
    assert BytesOf(ds)[0] == ByteOf(ds[0]);
    PairLength(ds[0]);
    AtFits(source, i, [0x25] + ds[0]);
    h := ds[0];
  }

  /** Where no mark can be taken, the fault is the one that is reported. */
  lemma FaultBack(uri: bool, source: Text, i: nat) returns (behind: Text)
    requires i < |source| && !NameEnds(source, i) && PieceOf(uri, source, i).Bad?
    ensures var p := PieceOf(uri, source, i);
            p.offset == i + |behind| && At(source, i, behind) && Fault(uri, source, p.offset, behind, p.error)
  {
    hide PercentSequence, HexPair, NoTriplets, NeedPercentEncode, ByteOf;
    ReservedIs(source[i]);
    if uri && source[i] == PERCENT {
      TripletsFail(source, i);
      if PercentSequence(source, i).Some? {
        var h := TripletTilde(source, i);
        PairLength(h);
        behind := [0x25] + h;
      } else {
        behind := [];
      }
    } else if source[i] == TILDE {
      behind := [0x7E];
    } else {
      behind := [];
    }
  }

  lemma {:induction false} NameBreaks(uri: bool, source: Text, i: nat, acc: Text) returns (name: Name, behind: Text)
    requires i <= |source| && NameFrom(uri, source, i, acc).BadName?
    ensures NameOk(uri, name) && At(source, i, MarksText(name) + behind)
    ensures var n := NameFrom(uri, source, i, acc);
            n.offset == i + |MarksText(name)| + |behind| && Fault(uri, source, n.offset, behind, n.error)
    decreases |source| - i
  {
    hide At, MarkOk, MarkText, MarkValue, PieceOf, Fault;
    if PieceOf(uri, source, i).Bad? {
      behind := FaultBack(uri, source, i);
      name := [];
      assert [] + behind == behind;
    } else {
      var m := MarkBack(uri, source, i);
      var rest;
      rest, behind := NameBreaks(uri, source, i + |MarkText(m)|, acc + MarkValue(m));
      name := [m] + rest;
      assert name[1..] == rest;
      AtJoin(source, i, MarkText(m), MarksText(rest) + behind);
      assert MarkText(m) + (MarksText(rest) + behind) == MarksText(name) + behind;
    }
  }

  lemma {:induction false} NamesBreak(uri: bool, source: Text, i: nat, acc: seq<Token>) returns (names: seq<Name>, behind: Text)
    requires i <= |source| && NameEnds(source, i) && TokensFrom(uri, source, i, acc).Failed?
    ensures NamesOk(uri, names) && names != [] && At(source, i, NamesText(names) + behind)
    ensures var f := TokensFrom(uri, source, i, acc);
            f.offset == i + |NamesText(names)| + |behind| && Fault(uri, source, f.offset, behind, f.error)
    decreases |source| - i
  {
    hide At, NameFrom, MarksText, NameValue, NameOk, IndexOf, Fault;
    AtOne(source, i);
    if NameFrom(uri, source, i + 1, []).BadName? {
      var name;
      name, behind := NameBreaks(uri, source, i + 1, []);
      names := [name];
      AtJoin(source, i, [0x2F], MarksText(name) + behind);
      OneNameText(name);
      assert [0x2F] + (MarksText(name) + behind) == NamesText(names) + behind;
    } else {
      var name := NameBackwards(uri, source, i + 1, []);
      var j, v := i + 1 + |MarksText(name)|, [] + NameValue(name);
      var rest;
      rest, behind := NamesBreak(uri, source, j, acc + [Token(v, IndexOf(v))]);
      names := [name] + rest;
      assert names[1..] == rest;
      AtJoin(source, i + 1, MarksText(name), NamesText(rest) + behind);
      AtJoin(source, i, [0x2F], MarksText(name) + (NamesText(rest) + behind));
      assert [0x2F] + (MarksText(name) + (NamesText(rest) + behind)) == NamesText(names) + behind;
    }
  }

  lemma OneNameText(name: Name)
    ensures NamesText([name]) == [0x2F] + MarksText(name)
  {
    hide MarksText;
    assert MarksText(name) + [] == MarksText(name);
  }

  lemma FailsRight(source: Text)
    requires ParsePointer(source).Failed?
    ensures FailsWith(source, ParsePointer(source).error, ParsePointer(source).offset)
  {
    hide NamesText, NamesOk, Fault, TokensFrom;
    var uri := Peek(source, 0) == HASH;
    var i := if uri then 1 else 0;
    if NameEnds(source, i) {
      var names, behind := NamesBreak(uri, source, i, []);
      var offset := ParsePointer(source).offset;
      AtFits(source, i, NamesText(names) + behind);
      assert source[..offset] == source[..i] + source[i..offset];
      assert source[..i] + (NamesText(names) + behind) == PointerText(uri, names) + behind;
      assert BreaksOff(uri, source, names, behind, offset);
      NoSolidusFault(uri, source, offset, behind);
    }
  }

  lemma NoSolidusFault(uri: bool, source: Text, offset: nat, behind: Text)
    ensures !Fault(uri, source, offset, behind, TokenMustBeginWithSolidus)
  {
  }

  /** A fault is reported as soon as it is reached. */
  lemma FaultFound(uri: bool, source: Text, i: nat, behind: Text, error: ParseError)
    requires At(source, i, behind) && Fault(uri, source, i + |behind|, behind, error)
    ensures i < |source| && !NameEnds(source, i) && PieceOf(uri, source, i) == Bad(error, i + |behind|)
  {
    hide PercentSequence, NoTriplets, NeedPercentEncode;
    ReservedIs(Peek(source, i));
    match error
    case InvalidPercentEncoding => TripletsFail(source, i);
    case InvalidEscape =>
      AtIndex(source, i, behind, 0);
      if behind != [0x7E] {
        var h :| HexPair(h) && ByteOf(h) == 0x7E && behind == [0x25] + h;
        EscapedTilde(source, i, h);
      }
    case _ =>
  }

  lemma EscapedTilde(source: Text, i: nat, h: Text)
    requires HexPair(h) && ByteOf(h) == 0x7E && At(source, i, [0x25] + h)
    ensures |h| == 2 && PercentSequence(source, i) == Some([0x7E])
  {
    hide At, TripletAt, IsSequence, HexPair, Announced;
    PairLength(h);
    var ds := [h];
    assert HexText(ds) == [0x25] + h by {
      assert ds[1..] == [];
      assert h + [] == h;
    }
    assert BytesOf(ds) == [0x7E];
    OneByteIs(0x7E);
    ReadSequence(source, i, ds);
  }

  lemma {:induction false} NamesFail(uri: bool, source: Text, i: nat, names: seq<Name>, acc: seq<Token>, behind: Text, error: ParseError)
    requires NamesOk(uri, names) && names != [] && At(source, i, NamesText(names) + behind)
    requires Fault(uri, source, i + |NamesText(names)| + |behind|, behind, error)
    ensures i < |source| && NameEnds(source, i)
    ensures TokensFrom(uri, source, i, acc) == Failed(error, i + |NamesText(names)| + |behind|)
    decreases |names|
  {
    hide At, NameFrom, MarksText, NameValue, NameOk, IndexOf, Fault;
    var t, rest := MarksText(names[0]), NamesText(names[1..]);
    assert NamesText(names) + behind == [0x2F] + (t + (rest + behind));
    AtConcat(source, i, [0x2F], t + (rest + behind));
    AtIndex(source, i, [0x2F], 0);
    AtConcat(source, i + 1, t, rest + behind);
    var j, v := i + 1 + |t|, [] + NameValue(names[0]);
    NameRead(uri, source, i + 1, names[0], []);
    if |names| == 1 {
      assert rest + behind == behind;
      NameFails(uri, source, j, v, behind, error);
    } else {
      NamesFail(uri, source, j, names[1..], acc + [Token(v, IndexOf(v))], behind, error);
      NameStops(uri, source, j, v);
    }
  }

  lemma NameFails(uri: bool, source: Text, i: nat, acc: Text, behind: Text, error: ParseError)
    requires At(source, i, behind) && Fault(uri, source, i + |behind|, behind, error)
    ensures i <= |source| && NameFrom(uri, source, i, acc) == BadName(error, i + |behind|)
  {
    hide At, PieceOf, Fault;
    FaultFound(uri, source, i, behind, error);
  }

  lemma {:induction false} FaultFails(uri: bool, source: Text, names: seq<Name>, behind: Text, error: ParseError, offset: nat)
    requires BreaksOff(uri, source, names, behind, offset) && Fault(uri, source, offset, behind, error)
    ensures ParsePointer(source) == Failed(error, offset)
  {
    hide NamesText, NamesOk, Fault, TokensFrom;
    var i := if uri then 1 else 0;
    var text := NamesText(names) + behind;
    assert source[..offset] == (if uri then [0x23] else []) + text;
    assert source[i..i + |text|] == source[..offset][i..];
    SolidusHere(names);
    assert source[0] == source[..offset][0];
    NamesFail(uri, source, i, names, [], behind, error);
  }

  lemma SolidusHere(names: seq<Name>)
    requires names != []
    ensures NamesText(names) != [] && NamesText(names)[0] == 0x2F
  {
  }

  /** The parser fails with an error at an offset exactly where well-formed names lead to that fault. */
  lemma RefusedIsFault(source: Text, error: ParseError, offset: nat)
    ensures ParsePointer(source) == Failed(error, offset) <==> FailsWith(source, error, offset)
  {
    hide NamesOk, Fault, TokensFrom, BreaksOff;
    if ParsePointer(source) == Failed(error, offset) {
      FailsRight(source);
    }
    if FailsWith(source, error, offset) && !error.TokenMustBeginWithSolidus? {
      var uri: bool, names: seq<Name>, behind: Text :|
        BreaksOff(uri, source, names, behind, offset) && Fault(uri, source, offset, behind, error);
      FaultFails(uri, source, names, behind, error, offset);
    }
  }

  // ----- Which names are indices -----

  /** Only digits without a leading zero give an index, and below 2^32 their value. */
  lemma IndexOfName(name: Text)
    ensures var plain := name != [] && (forall k :: 0 <= k < |name| ==> 0x30 <= name[k] <= 0x39) && (name[0] == 0x30 ==> |name| == 1);
            && (!plain ==> IndexOf(name) == 0xFFFF_FFFF)
            && (plain && DigitsValue(name, 0, |name|, 0) < 0x1_0000_0000 ==> IndexOf(name) == DigitsValue(name, 0, |name|, 0))
  {
    hide IndexFrom, DigitsValue;
    if PlainDigits(name) {
      IndexIsValue(name);
    }
  }

  // ----- The spelling that is printed -----

  predicate UpperMark(m: Mark) {
    match m
    case Escape(Some(h), _) => U.UpperDigits(h)
    case Percent(ds) => UpperPairs(ds)
    case _ => true
  }

  predicate UpperPairs(ds: seq<Text>) {
    forall k :: 0 <= k < |ds| ==> U.UpperDigits(ds[k])
  }

  /** Its hexadecimal digits are in upper case. */
  predicate UpperName(name: Name) {
    forall k :: 0 <= k < |name| ==> UpperMark(name[k])
  }

  predicate UpperNames(names: seq<Name>) {
    forall k :: 0 <= k < |names| ==> UpperName(names[k])
  }

  ghost predicate AsShort(t: Text, other: Text, upper: bool) {
    |t| <= |other| && (|t| == |other| && upper ==> t == other)
  }

  lemma UpperPair(h: Text)
    requires HexPair(h)
    ensures ByteOf(h) < 256
    ensures U.UpperDigits(h) ==> Triplet(ByteOf(h)) == [0x25] + h
  {
    hide HexDigit, S.NibbleOf;
    if U.UpperDigits(h) {
      U.UpperNibble(h[0]);
      U.UpperNibble(h[1]);
    }
  }

  lemma {:induction false} PairsText(ds: seq<Text>)
    requires HexPairs(ds)
    ensures |TripletsOf(BytesOf(ds))| == |HexText(ds)| == 3 * |ds|
    ensures UpperPairs(ds) ==> TripletsOf(BytesOf(ds)) == HexText(ds)
    decreases |ds|
  {
    hide HexPair, ByteOf, U.UpperDigits;
    if ds != [] {
      assert HexPair(ds[0]);
      PairLength(ds[0]);
      UpperPair(ds[0]);
      PairsText(ds[1..]);
      assert BytesOf(ds) == [ByteOf(ds[0])] + BytesOf(ds[1..]);
      assert BytesOf(ds)[1..] == BytesOf(ds[1..]);
      assert UpperPairs(ds) ==> U.UpperDigits(ds[0]) && UpperPairs(ds[1..]);
    }
  }

  lemma SequenceFirst(t: Text, rest: Text)
    requires t != [] && IsSequence(t, 0) && Announced(t[0]) == |t|
    ensures IsSequence(t + rest, 0)
  {
    var all := t + rest;
    assert forall k :: 0 <= k < |t| ==> Peek(all, k) == Peek(t, k);
  }

  /** The printer takes as many bytes as the mark has, and spells them no longer. */
  ghost predicate PrintsFirst(uri: bool, m: Mark, rest: Text) {
    var v, n := MarkValue(m) + rest, |MarkValue(m)|;
    && n > 0 && First(uri, v) == n && (n != 1 ==> IsSequence(v, 0)) && v[n..] == rest
    && AsShort(FirstText(uri, v), MarkText(m), UpperMark(m))
  }

  lemma FirstOfPercent(ds: seq<Text>, rest: Text)
    requires MarkOk(true, Percent(ds))
    ensures PrintsFirst(true, Percent(ds), rest)
  {
    hide HexPair, HexPairs, ByteOf, BytesOf, OneCharacter, IsSequence, TripletsOf, HexText, U.UpperDigits;
    var t := BytesOf(ds);
    var v := t + rest;
    CharacterIs(t);
    PairsText(ds);
    BytesCount(ds);
    SequenceFirst(t, rest);
    ReservedIs(v[0]);
    assert v[..|t|] == t && v[|t|..] == rest && v[0] == t[0];
    if |t| == 1 {
      OneIsItself(t);
    }
    AsciiSequence(t);
  }

  lemma BytesCount(ds: seq<Text>)
    ensures |BytesOf(ds)| == |ds|
  {
  }

  lemma OneIsItself(t: Text)
    requires |t| == 1
    ensures t == [t[0]]
  {
  }

  lemma FirstOfMark(uri: bool, m: Mark, rest: Text)
    requires MarkOk(uri, m)
    ensures PrintsFirst(uri, m, rest)
  {
    hide HexPairs, OneCharacter, IsSequence, TripletsOf, HexText, ByteOf, U.UpperDigits;
    match m
    case Bare(c) =>
      ReservedIs(c);
    case Escape(_, d) =>
    case Percent(ds) =>
      FirstOfPercent(ds, rest);
  }

  lemma {:induction false} NameIsShortest(uri: bool, name: Name)
    requires NameOk(uri, name)
    ensures NameText(uri, NameValue(name)).Some?
    ensures AsShort(NameText(uri, NameValue(name)).value, MarksText(name), UpperName(name))
    decreases |name|
  {
    hide MarkOk, MarkText, MarkValue, First, FirstText, IsSequence, NameText, UpperMark;
    NoNameText(uri);
    if name != [] {
      var v := NameValue(name);
      FirstOfMark(uri, name[0], NameValue(name[1..]));
      NameIsShortest(uri, name[1..]);
      NameTextStep(uri, v);
    }
  }

  lemma {:induction false} NamesAreShortest(uri: bool, names: seq<Name>)
    requires NamesOk(uri, names)
    ensures TokensText(uri, NameValues(names)).Some?
    ensures AsShort(TokensText(uri, NameValues(names)).value, NamesText(names), UpperNames(names))
    decreases |names|
  {
    hide NameOk, NameText, NameValue, MarksText, UpperName;
    if names != [] {
      NameIsShortest(uri, names[0]);
      NamesAreShortest(uri, names[1..]);
      var vs := NameValues(names);
      assert vs[0] == NameValue(names[0]) && vs[1..] == NameValues(names[1..]);
      var t, rest := NameText(uri, vs[0]).value, TokensText(uri, vs[1..]).value;
      assert TokensText(uri, vs).value == [SLASH] + t + rest;
      assert [0x2F] + (t + rest) == [SLASH] + t + rest;
    }
  }

  /** Of all the spellings of the names, in the form asked for, Stringify gives the shortest, in upper case. */
  lemma ShortestPointer(uri: bool, names: seq<Name>)
    requires NamesOk(uri, names)
    ensures StringifyPointer(uri, NameValues(names)).Some?
    ensures AsShort(StringifyPointer(uri, NameValues(names)).value, PointerText(uri, names), UpperNames(names))
  {
    hide TokensText, NamesText, NameValues, UpperNames, NamesOk;
    NamesAreShortest(uri, names);
  }

  function PairsOf(t: Text): seq<Text> {
    seq(|t|, k requires 0 <= k < |t| => [HexDigit(t[k] / 16), HexDigit(t[k] % 16)])
  }

  lemma PairOf(b: nat)
    requires b < 256
    ensures var h := [HexDigit(b / 16), HexDigit(b % 16)]; HexPair(h) && U.UpperDigits(h) && ByteOf(h) == b
  {
    hide HexDigit, S.NibbleOf;
    U.DigitNibble(b / 16);
    U.DigitNibble(b % 16);
  }

  lemma PairsAre(t: Text)
    requires Bytes(t)
    ensures HexPairs(PairsOf(t)) && UpperPairs(PairsOf(t)) && BytesOf(PairsOf(t)) == t
  {
    hide HexPair, ByteOf, HexDigit, U.UpperDigits;
    forall k | 0 <= k < |t|
      ensures HexPair(PairsOf(t)[k]) && U.UpperDigits(PairsOf(t)[k]) && ByteOf(PairsOf(t)[k]) == t[k]
    {
      PairOf(t[k]);
    }
  }

  lemma MarkFor(uri: bool, name: Text) returns (m: Mark)
    requires name != [] && Bytes(name) && 0 < First(uri, name) <= |name| && (First(uri, name) != 1 ==> IsSequence(name, 0))
    ensures MarkOk(uri, m) && UpperMark(m) && MarkText(m) == FirstText(uri, name) && MarkValue(m) == name[..First(uri, name)]
  {
    hide IsSequence, HexPairs, UpperPairs, OneCharacter, PairsOf, HexText, TripletsOf, BytesOf, Bytes;
    ReservedIs(name[0]);
    if name[0] == TILDE {
      m := Escape(None, 0x30);
    } else if name[0] == SLASH {
      m := Escape(None, 0x31);
    } else if uri && NeedPercentEncode(name[0]) {
      var t := name[..First(uri, name)];
      OneIsSequence(name);
      PrefixSequence(name, |t|);
      CharacterIs(t);
      PrefixBytes(name, |t|);
      PairsAre(t);
      PairsText(PairsOf(t));
      m := Percent(PairsOf(t));
    } else {
      m := Bare(name[0]);
    }
  }

  lemma PrefixBytes(name: Text, n: nat)
    requires Bytes(name) && n <= |name|
    ensures Bytes(name[..n]) && Bytes(name[n..])
  {
  }

  lemma {:induction false} MarksFor(uri: bool, name: Text) returns (marks: Name)
    requires Bytes(name) && NameText(uri, name).Some?
    ensures NameOk(uri, marks) && UpperName(marks) && MarksText(marks) == NameText(uri, name).value && NameValue(marks) == name
    decreases |name|
  {
    hide MarkOk, MarkText, MarkValue, First, FirstText, IsSequence, NameText, UpperMark, Bytes;
    NoNameText(uri);
    if name == [] {
      marks := [];
    } else {
      NameTextStep(uri, name);
      var n := First(uri, name);
      PrefixBytes(name, n);
      var m := MarkFor(uri, name);
      var rest := MarksFor(uri, name[n..]);
      marks := [m] + rest;
      assert marks[1..] == rest;
      assert name == name[..n] + name[n..];
    }
  }

  lemma {:induction false} NamesFor(uri: bool, names: seq<Text>) returns (spelled: seq<Name>)
    requires AllBytes(names) && TokensText(uri, names).Some?
    ensures NamesOk(uri, spelled) && UpperNames(spelled) && NamesText(spelled) == TokensText(uri, names).value
    ensures NameValues(spelled) == names
    decreases |names|
  {
    hide NameOk, NameText, NameValue, MarksText, UpperName;
    if names == [] {
      spelled := [];
    } else {
      var name := MarksFor(uri, names[0]);
      var rest := NamesFor(uri, names[1..]);
      spelled := [name] + rest;
      assert spelled[1..] == rest;
      assert names == [names[0]] + names[1..];
      assert [0x2F] + (MarksText(name) + NamesText(rest)) == [SLASH] + MarksText(name) + NamesText(rest);
    }
  }

  /** What is printed is a spelling of the names, its hexadecimal digits in upper case. */
  lemma PrintedIsSpelled(uri: bool, names: seq<Text>)
    requires AllBytes(names) && StringifyPointer(uri, names).Some?
    ensures exists spelled ::
              && NamesOk(uri, spelled) && UpperNames(spelled) && NameValues(spelled) == names
              && PointerText(uri, spelled) == StringifyPointer(uri, names).value
  {
    hide TokensText, NamesText, NameValues, UpperNames, NamesOk, AllBytes;
    var spelled := NamesFor(uri, names);
    assert PointerText(uri, spelled) == StringifyPointer(uri, names).value;
  }
}
