/** White space, literals, strings and integers as reader.h scans them, byte by byte. */
module JsonLexer {
  import opened Options
  import opened Powers
  import opened JsonEvents
  import opened Encodings
  import opened Texts

  const BACKSLASH: nat := '\\' as nat

  // ----- White space and comments -----

  predicate IsSpace(c: nat) {
    c == ' ' as nat || c == '\n' as nat || c == '\r' as nat || c == '\t' as nat
  }

  function SkipWhitespace(text: Text, i: nat): (j: nat)
    requires i <= |text|
    ensures i <= j <= |text| && !IsSpace(Peek(text, j))
    decreases |text| - i
  {
    if IsSpace(Peek(text, i)) then SkipWhitespace(text, i + 1) else i
  }

  /** From behind the opening mark of a comment to behind its end, or None where it does not end. */
  function BlockCommentEnd(text: Text, i: nat): (j: Option<nat>)
    requires i <= |text|
    ensures j.Some? ==> i < j.value <= |text|
    decreases |text| - i
  {
    if Peek(text, i) == 0 then None
    else if Peek(text, i) == '*' as nat && Peek(text, i + 1) == '/' as nat then Some(i + 2)
    else BlockCommentEnd(text, i + 1)
  }

  function LineCommentEnd(text: Text, i: nat): (j: nat)
    requires i <= |text|
    ensures i <= j <= |text|
    decreases |text| - i
  {
    if Peek(text, i) == 0 then i
    else if text[i] == '\n' as nat then i + 1
    else LineCommentEnd(text, i + 1)
  }

  function SkipComments(text: Text, i: nat): (j: Option<nat>)
    requires i <= |text|
    ensures j.Some? ==> i <= j.value <= |text|
    decreases |text| - i
  {
    var k := SkipWhitespace(text, i);
    if Peek(text, k) != '/' as nat then Some(k)
    else if Peek(text, k + 1) == '*' as nat then
      match BlockCommentEnd(text, k + 2)
      case None => None
      case Some(e) => SkipComments(text, e)
    else if Peek(text, k + 1) == '/' as nat then SkipComments(text, LineCommentEnd(text, k + 2))
    else None
  }

  // ----- Strings -----

  /** The table of single-character escapes; 0 where there is none. */
  function Unescape(e: nat): nat {
    if e == QUOTE || e == '/' as nat || e == BACKSLASH then e
    else if e == 'b' as nat then 0x08
    else if e == 'f' as nat then 0x0C
    else if e == 'n' as nat then 0x0A
    else if e == 'r' as nat then 0x0D
    else if e == 't' as nat then 0x09
    else 0
  }

  function HexValue(c: nat): Option<nat> {
    if '0' as nat <= c <= '9' as nat then Some(c - '0' as nat)
    else if 'A' as nat <= c <= 'F' as nat then Some(c - 'A' as nat + 10)
    else if 'a' as nat <= c <= 'f' as nat then Some(c - 'a' as nat + 10)
    else None
  }

  function ParseHex4(text: Text, i: nat): (h: Option<nat>)
    ensures h.Some? ==> h.value <= 0xFFFF && i + 4 <= |text|
  {
    match (HexValue(Peek(text, i)), HexValue(Peek(text, i + 1)), HexValue(Peek(text, i + 2)), HexValue(Peek(text, i + 3)))
    case (Some(a), Some(b), Some(c), Some(d)) => if a < 16 && b < 16 && c < 16 && d < 16 then Some(((a * 16 + b) * 16 + c) * 16 + d) else None
    case _ => None
  }

  /** A \uXXXX escape, from behind the u, or a pair of them: the code point and where it ends. */
  function UnicodeEscape(text: Text, i: nat): (u: Option<(nat, nat)>)
    ensures u.Some? ==> u.value.0 <= 0x10FFFF && i < u.value.1 <= |text|
  {
    match ParseHex4(text, i)
    case None => None
    case Some(lead) =>
      if !(0xD800 <= lead <= 0xDBFF) then Some((lead, i + 4))
      else if Peek(text, i + 4) != BACKSLASH || Peek(text, i + 5) != 'u' as nat then None
      else
        match ParseHex4(text, i + 6)
        case None => None
        case Some(trail) =>
          if !(0xDC00 <= trail <= 0xDFFF) then None
          else Some(((lead - 0xD800) * 1024 + (trail - 0xDC00) + 0x10000, i + 10))
  }

  /** One character of a string: the bytes it stands for and where it ends. */
  function CharAt(text: Text, i: nat): (c: Option<(Text, nat)>)
    requires i <= |text|
    ensures c.Some? ==> i < c.value.1 <= |text|
  {
    var c := Peek(text, i);
    if c == BACKSLASH then
      var e := Peek(text, i + 1);
      if Unescape(e) != 0 then Some(([Unescape(e)], i + 2))
      else if e == 'u' as nat then
        match UnicodeEscape(text, i + 2)
        case None => None
        case Some((cp, j)) => Some((Encode(cp), j))
      else None
    else if c < 0x20 then None
    else Some(([c], i + 1))
  }

  /** ParseStringToStream from behind the opening quote. */
  function StringFrom(text: Text, i: nat, acc: Text): (s: Option<(Text, nat)>)
    requires i <= |text|
    ensures s.Some? ==> i < s.value.1 <= |text|
    decreases |text| - i
  {
    if Peek(text, i) == QUOTE then Some((acc, i + 1))
    else
      match CharAt(text, i)
      case None => None
      case Some((bytes, j)) => StringFrom(text, j, acc + bytes)
  }

  // ----- Integers -----

  function DigitsEnd(text: Text, i: nat): (j: nat)
    requires i <= |text|
    ensures i <= j <= |text| && !IsDigit(Peek(text, j))
    decreases |text| - i
  {
    if IsDigit(Peek(text, i)) then DigitsEnd(text, i + 1) else i
  }

  /** The integer part of a number: its sign, where its digits begin and end. No digit may follow a leading zero. */
  function IntegerEnd(text: Text, i: nat): (e: Option<nat>)
    requires i <= |text|
    ensures e.Some? ==> i < e.value <= |text|
  {
    var j := if Peek(text, i) == '-' as nat then i + 1 else i;
    if Peek(text, j) == '0' as nat then Some(j + 1)
    else if IsDigit(Peek(text, j)) then Some(DigitsEnd(text, j))
    else None
  }

  predicate Fits(minus: bool, v: nat) {
    if minus then v <= TWO63 else v < TWO64
  }

  predicate GoesOn(c: nat) {
    c == '.' as nat || c == 'e' as nat || c == 'E' as nat
  }

  /**
   * A number is reported as an integer when it has neither fraction nor exponent and lies in [-2^63, 2^64);
   * everything else is up to `double`.
   */
  function NumberAt(double: (Text, nat) -> Lexed, text: Text, i: nat): Lexed
    requires i <= |text|
  {
    match IntegerEnd(text, i)
    case None => Malformed
    case Some(e) =>
      var minus := Peek(text, i) == '-' as nat;
      var v := DigitsValue(text, if minus then i + 1 else i, e, 0);
      if GoesOn(Peek(text, e)) || !Fits(minus, v) then double(text, i)
      else Lexed(Value(Integer(if minus then 0 - v else v)), e)
  }

  // ----- The lexer as the parsers use it -----

  function Literal(text: Text, i: nat, word: Text, s: Scalar): Lexed {
    if i + |word| <= |text| && text[i..i + |word|] == word then Lexed(Value(s), i + |word|) else Malformed
  }

  const NULL_TEXT: Text := ['n' as nat, 'u' as nat, 'l' as nat, 'l' as nat]
  const TRUE_TEXT: Text := ['t' as nat, 'r' as nat, 'u' as nat, 'e' as nat]
  const FALSE_TEXT: Text := ['f' as nat, 'a' as nat, 'l' as nat, 's' as nat, 'e' as nat]

  function ScalarAt(double: (Text, nat) -> Lexed, text: Text, i: nat): Lexed {
    if i > |text| then Malformed
    else
      var c := Peek(text, i);
      if c == 'n' as nat then Literal(text, i, NULL_TEXT, Null)
      else if c == 't' as nat then Literal(text, i, TRUE_TEXT, Bool(true))
      else if c == 'f' as nat then Literal(text, i, FALSE_TEXT, Bool(false))
      else if c == QUOTE then
        match StringFrom(text, i + 1, [])
        case None => Malformed
        case Some((s, j)) => Lexed(Value(String(s)), j)
      else NumberAt(double, text, i)
  }

  function KeyAt(text: Text, i: nat): Lexed {
    if i >= |text| || text[i] != QUOTE then Malformed
    else
      match StringFrom(text, i + 1, [])
      case None => Malformed
      case Some((s, j)) => Lexed(Key(s), j)
  }

  function SkipAt(comments: bool, text: Text, i: nat): Option<nat> {
    if i > |text| then None
    else if comments then SkipComments(text, i)
    else Some(SkipWhitespace(text, i))
  }

  /** What a scanner of doubles must keep to: it gets somewhere and gives one value. */
  ghost predicate DoublesOk(double: (Text, nat) -> Lexed) {
    forall t: Text, i: nat {:trigger double(t, i)} :: double(t, i).Lexed? ==>
      i < double(t, i).next <= |t| && double(t, i).e.Value?
  }

  function JsonReader(double: (Text, nat) -> Lexed, accepts: (seq<Event>, Event) -> bool,
                      comments: bool, trailingCommas: bool, stopWhenDone: bool): Reader {
    Reader((t: Text, i: nat) => SkipAt(comments, t, i), (t: Text, i: nat) => KeyAt(t, i), (t: Text, i: nat) => ScalarAt(double, t, i),
           accepts, trailingCommas, stopWhenDone)
  }

  /** The scanners meet what the theorems about the two parsers ask of them. */
  lemma LexerIsSound(double: (Text, nat) -> Lexed, accepts: (seq<Event>, Event) -> bool,
                     comments: bool, trailingCommas: bool, stopWhenDone: bool)
    requires DoublesOk(double)
    ensures Sound(JsonReader(double, accepts, comments, trailingCommas, stopWhenDone))
  {
  }
}
