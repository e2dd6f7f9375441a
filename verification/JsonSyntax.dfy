/** JSON texts as RFC 8259 spells them, token by token, and what the parsers accept of them: exactly these. */
module JsonSyntaxes {
  import opened Options
  import opened Powers
  import opened JsonEvents
  import opened JsonGrammar
  import opened JsonLexer
  import opened Encodings
  import opened Texts
  import opened JsonWriters

  // ----- Syntax, as in sections 2 to 7 of RFC 8259, and comments -----

  /** A blank, tab, line feed or carriage return; a comment; or a comment that ends its line. */
  datatype GapPiece = Space(c: nat) | Block(body: Text) | Line(body: Text)

  type Gap = seq<GapPiece>

  /** A byte as it is, a two-character escape, four hexadecimal digits, or a pair of these for a surrogate pair. */
  datatype CharForm = Raw(b: nat) | Short(e: nat) | Hex(digits: Text) | Pair(lead: Text, trail: Text)

  /** A value with the white space inside it; the gap behind the last child's comma is there if the comma is. */
  datatype Syntax =
    | WordForm(s: Scalar)
    | IntegerForm(minus: bool, digits: Text)
    | StringForm(chars: seq<CharForm>)
    | ArrayForm(inner: Gap, elements: seq<Element>, trailing: bool)
    | ObjectForm(inner: Gap, members: seq<Entry>, trailing: bool)

  datatype Element = Element(value: Syntax, after: Gap, next: Gap)

  datatype Entry = Entry(name: seq<CharForm>, beforeColon: Gap, afterColon: Gap, value: Syntax, after: Gap, next: Gap)

  /** The root with the gaps around it; a comment at the very end needs no line feed. */
  datatype Whole = Whole(before: Gap, root: Syntax, after: Gap, tail: Option<Text>)

  // ----- Texts -----

  function PieceText(p: GapPiece): Text {
    match p
    case Space(c) => [c]
    case Block(body) => ['/' as nat, '*' as nat] + (body + ['*' as nat, '/' as nat])
    case Line(body) => ['/' as nat, '/' as nat] + (body + ['\n' as nat])
  }

  function GapText(g: Gap): Text {
    if g == [] then [] else PieceText(g[0]) + GapText(g[1..])
  }

  function FormText(f: CharForm): Text {
    match f
    case Raw(b) => [b]
    case Short(e) => ['\\' as nat, e]
    case Hex(h) => ['\\' as nat, 'u' as nat] + h
    case Pair(l, t) => ['\\' as nat, 'u' as nat] + (l + (['\\' as nat, 'u' as nat] + t))
  }

  function FormsText(fs: seq<CharForm>): Text {
    if fs == [] then [] else FormText(fs[0]) + FormsText(fs[1..])
  }

  function NameText(fs: seq<CharForm>): Text {
    ['"' as nat] + (FormsText(fs) + ['"' as nat])
  }

  function WordText(s: Scalar): Text {
    match s
    case Null => ['n' as nat, 'u' as nat, 'l' as nat, 'l' as nat]
    case Bool(b) => if b then ['t' as nat, 'r' as nat, 'u' as nat, 'e' as nat] else ['f' as nat, 'a' as nat, 'l' as nat, 's' as nat, 'e' as nat]
    case _ => []
  }

  function SyntaxText(t: Syntax): Text
    decreases t, 0
  {
    match t
    case WordForm(s) => WordText(s)
    case IntegerForm(minus, digits) => (if minus then ['-' as nat] else []) + digits
    case StringForm(chars) => NameText(chars)
    case ArrayForm(inner, es, trailing) =>
      ['[' as nat] + (GapText(inner) + if es == [] then [']' as nat] else ElementsText(es, trailing))
    case ObjectForm(inner, ms, trailing) =>
      ['{' as nat] + (GapText(inner) + if ms == [] then ['}' as nat] else EntriesText(ms, trailing))
  }

  /** What follows the last child. */
  function CloseText(trailing: bool, next: Gap, closing: nat): Text {
    if trailing then [',' as nat] + (GapText(next) + [closing]) else [closing]
  }

  function ElementsText(es: seq<Element>, trailing: bool): Text
    requires es != []
    decreases es, 1
  {
    SyntaxText(es[0].value) + (GapText(es[0].after) +
      if |es| == 1 then CloseText(trailing, es[0].next, ']' as nat)
      else [',' as nat] + (GapText(es[0].next) + ElementsText(es[1..], trailing)))
  }

  function EntryText(m: Entry): Text
    decreases m, 0
  {
    NameText(m.name) + (GapText(m.beforeColon) + ([':' as nat] + (GapText(m.afterColon) + SyntaxText(m.value))))
  }

  function EntriesText(ms: seq<Entry>, trailing: bool): Text
    requires ms != []
    decreases ms, 1
  {
    EntryText(ms[0]) + (GapText(ms[0].after) +
      if |ms| == 1 then CloseText(trailing, ms[0].next, '}' as nat)
      else [',' as nat] + (GapText(ms[0].next) + EntriesText(ms[1..], trailing)))
  }

  function TailText(tail: Option<Text>): Text {
    if tail.Some? then ['/' as nat, '/' as nat] + tail.value else []
  }

  function WholeText(d: Whole): Text {
    GapText(d.before) + (SyntaxText(d.root) + (GapText(d.after) + TailText(d.tail)))
  }

  // ----- What is well formed -----

  predicate White(c: nat) {
    c == 0x20 || c == 0x09 || c == 0x0A || c == 0x0D
  }

  /** The body of a comment: no end of it inside. */
  predicate BlockBody(body: Text) {
    && (forall k :: 0 <= k < |body| ==> body[k] != 0)
    && forall k :: 0 <= k < |body| - 1 ==> !(body[k] == '*' as nat && body[k + 1] == '/' as nat)
  }

  predicate LineBody(body: Text) {
    forall k :: 0 <= k < |body| ==> body[k] != 0 && body[k] != '\n' as nat
  }

  predicate PieceOk(comments: bool, p: GapPiece) {
    match p
    case Space(c) => White(c)
    case Block(body) => comments && BlockBody(body)
    case Line(body) => comments && LineBody(body)
  }

  predicate GapOk(comments: bool, g: Gap) {
    forall k :: 0 <= k < |g| ==> PieceOk(comments, g[k])
  }

  predicate HexDigits(h: Text) {
    |h| == 4 && forall k :: 0 <= k < 4 ==> 0x30 <= h[k] <= 0x39 || 0x41 <= h[k] <= 0x46 || 0x61 <= h[k] <= 0x66
  }

  function NibbleOf(c: nat): (n: nat)
    ensures n < 16
  {
    if 0x30 <= c <= 0x39 then c - 0x30 else if 0x41 <= c <= 0x46 then c - 0x41 + 10 else if 0x61 <= c <= 0x66 then c - 0x61 + 10 else 0
  }

  function UnitOf(h: Text): (u: nat)
    ensures u <= 0xFFFF
  {
    if |h| == 4 then 0x1000 * NibbleOf(h[0]) + 0x100 * NibbleOf(h[1]) + 0x10 * NibbleOf(h[2]) + NibbleOf(h[3]) else 0
  }

  predicate Surrogates(l: Text, t: Text) {
    0xD800 <= UnitOf(l) <= 0xDBFF && 0xDC00 <= UnitOf(t) <= 0xDFFF
  }

  /** Every character may be escaped; quote, backslash and control characters must be. */
  predicate FormOk(f: CharForm) {
    match f
    case Raw(b) => b >= 0x20 && b != 0x22 && b != 0x5C
    case Short(e) => e in {0x22, 0x5C, 0x2F, 0x62, 0x66, 0x6E, 0x72, 0x74}
    case Hex(h) => HexDigits(h) && !(0xD800 <= UnitOf(h) <= 0xDBFF)
    case Pair(l, t) => HexDigits(l) && HexDigits(t) && Surrogates(l, t)
  }

  predicate FormsOk(fs: seq<CharForm>) {
    forall k :: 0 <= k < |fs| ==> FormOk(fs[k])
  }

  predicate IntegerOk(minus: bool, digits: Text) {
    PlainDigits(digits) && DigitsValue(digits, 0, |digits|, 0) <= if minus then 0x8000_0000_0000_0000 else 0xFFFF_FFFF_FFFF_FFFF
  }

  predicate SyntaxOk(comments: bool, commas: bool, t: Syntax)
    decreases t, 0
  {
    match t
    case WordForm(s) => s.Null? || s.Bool?
    case IntegerForm(minus, digits) => IntegerOk(minus, digits)
    case StringForm(chars) => FormsOk(chars)
    case ArrayForm(inner, es, trailing) =>
      GapOk(comments, inner) && (trailing ==> commas && es != []) && forall k :: 0 <= k < |es| ==> ElementOk(comments, commas, es[k])
    case ObjectForm(inner, ms, trailing) =>
      GapOk(comments, inner) && (trailing ==> commas && ms != []) && forall k :: 0 <= k < |ms| ==> EntryOk(comments, commas, ms[k])
  }

  predicate ElementOk(comments: bool, commas: bool, e: Element)
    decreases e, 1
  {
    SyntaxOk(comments, commas, e.value) && GapOk(comments, e.after) && GapOk(comments, e.next)
  }

  predicate EntryOk(comments: bool, commas: bool, m: Entry)
    decreases m, 1
  {
    && FormsOk(m.name) && GapOk(comments, m.beforeColon) && GapOk(comments, m.afterColon)
    && SyntaxOk(comments, commas, m.value) && GapOk(comments, m.after) && GapOk(comments, m.next)
  }

  // ----- What is meant -----

  function ShortValue(e: nat): nat {
    if e == 0x62 then 0x08 else if e == 0x66 then 0x0C else if e == 0x6E then 0x0A else if e == 0x72 then 0x0D
    else if e == 0x74 then 0x09 else e
  }

  function FormValue(f: CharForm): Text {
    match f
    case Raw(b) => [b]
    case Short(e) => [ShortValue(e)]
    case Hex(h) => Encode(UnitOf(h))
    case Pair(l, t) => if Surrogates(l, t) then Encode(0x10000 + (UnitOf(l) - 0xD800) * 0x400 + (UnitOf(t) - 0xDC00)) else []
  }

  function FormsValue(fs: seq<CharForm>): Text {
    if fs == [] then [] else FormValue(fs[0]) + FormsValue(fs[1..])
  }

  function Meaning(t: Syntax): Json
    decreases t, 0
  {
    match t
    case WordForm(s) => Leaf(s)
    case IntegerForm(minus, digits) =>
      var n := DigitsValue(digits, 0, |digits|, 0);
      Leaf(Integer(if minus then 0 - n else n))
    case StringForm(chars) => Leaf(String(FormsValue(chars)))
    case ArrayForm(_, es, _) => Array(Elements(es))
    case ObjectForm(_, ms, _) => Object(Members(ms))
  }

  function Elements(es: seq<Element>): (vs: seq<Json>)
    ensures |vs| == |es|
    decreases es, 1
  {
    if es == [] then [] else [Meaning(es[0].value)] + Elements(es[1..])
  }

  function Members(ms: seq<Entry>): (vs: seq<Member>)
    ensures |vs| == |ms|
    decreases ms, 1
  {
    if ms == [] then [] else [Member(FormsValue(ms[0].name), Meaning(ms[0].value))] + Members(ms[1..])
  }

  // ----- Gaps are skipped -----

  lemma WhiteIsSpace(c: nat)
    ensures IsSpace(c) <==> White(c)
  {
  }

  /** What ends a gap for the reader: no white space, and no comment where these are on. */
  predicate Stops(comments: bool, c: nat) {
    !White(c) && (comments ==> c != '/' as nat)
  }

  lemma {:induction false} BlockSkipped(text: Text, i: nat, body: Text)
    requires BlockBody(body) && At(text, i, body + ['*' as nat, '/' as nat])
    ensures i <= |text| && BlockCommentEnd(text, i) == Some(i + |body| + 2)
    decreases |body|
  {
    AtFits(text, i, body + ['*' as nat, '/' as nat]);
    AtIndex(text, i, body + ['*' as nat, '/' as nat], 0);
    AtIndex(text, i, body + ['*' as nat, '/' as nat], 1);
    if body != [] {
      assert body + ['*' as nat, '/' as nat] == [body[0]] + (body[1..] + ['*' as nat, '/' as nat]);
      AtConcat(text, i, [body[0]], body[1..] + ['*' as nat, '/' as nat]);
      BlockSkipped(text, i + 1, body[1..]);
    }
  }

  lemma {:induction false} LineSkipped(text: Text, i: nat, body: Text)
    requires LineBody(body) && At(text, i, body + ['\n' as nat])
    ensures i <= |text| && LineCommentEnd(text, i) == i + |body| + 1
    decreases |body|
  {
    AtFits(text, i, body + ['\n' as nat]);
    AtIndex(text, i, body + ['\n' as nat], 0);
    if body != [] {
      assert body + ['\n' as nat] == [body[0]] + (body[1..] + ['\n' as nat]);
      AtConcat(text, i, [body[0]], body[1..] + ['\n' as nat]);
      LineSkipped(text, i + 1, body[1..]);
    }
  }

  lemma {:induction false} TailSkipped(text: Text, i: nat, body: Text)
    requires LineBody(body) && At(text, i, body) && Peek(text, i + |body|) == 0
    ensures i <= |text| && LineCommentEnd(text, i) == i + |body|
    decreases |body|
  {
    AtFits(text, i, body);
    if body != [] {
      AtIndex(text, i, body, 0);
      assert body == [body[0]] + body[1..];
      AtConcat(text, i, [body[0]], body[1..]);
      TailSkipped(text, i + 1, body[1..]);
    }
  }

  lemma SpaceSkipped(comments: bool, text: Text, i: nat)
    requires i < |text| && White(text[i])
    ensures SkipAt(comments, text, i) == SkipAt(comments, text, i + 1)
  {
    WhiteIsSpace(text[i]);
    assert SkipWhitespace(text, i) == SkipWhitespace(text, i + 1);
  }

  lemma BlockPiece(text: Text, i: nat, body: Text)
    requires BlockBody(body) && At(text, i, PieceText(Block(body)))
    ensures i + |body| + 4 <= |text| && SkipComments(text, i) == SkipComments(text, i + |body| + 4)
  {
    hide At, BlockBody, BlockCommentEnd, SkipComments;
    AtConcat(text, i, ['/' as nat, '*' as nat], body + ['*' as nat, '/' as nat]);
    AtIndex(text, i, ['/' as nat, '*' as nat], 0);
    AtIndex(text, i, ['/' as nat, '*' as nat], 1);
    BlockSkipped(text, i + 2, body);
    CommentSkipped(text, i);
  }

  lemma LinePiece(text: Text, i: nat, body: Text)
    requires LineBody(body) && At(text, i, PieceText(Line(body)))
    ensures i + |body| + 3 <= |text| && SkipComments(text, i) == SkipComments(text, i + |body| + 3)
  {
    hide At, LineBody, LineCommentEnd, SkipComments;
    AtConcat(text, i, ['/' as nat, '/' as nat], body + ['\n' as nat]);
    AtIndex(text, i, ['/' as nat, '/' as nat], 0);
    AtIndex(text, i, ['/' as nat, '/' as nat], 1);
    LineSkipped(text, i + 2, body);
    CommentSkipped(text, i);
  }

  /** One piece of a gap makes no difference to what is skipped from its beginning. */
  lemma PieceSkipped(comments: bool, text: Text, i: nat, p: GapPiece)
    requires PieceOk(comments, p) && At(text, i, PieceText(p))
    ensures i + |PieceText(p)| <= |text| && SkipAt(comments, text, i) == SkipAt(comments, text, i + |PieceText(p)|)
  {
    hide At, SkipComments, BlockBody, LineBody;
    AtFits(text, i, PieceText(p));
    match p
    case Space(c) =>
      AtIndex(text, i, [c], 0);
      SpaceSkipped(comments, text, i);
    case Block(body) =>
      BlockPiece(text, i, body);
    case Line(body) =>
      LinePiece(text, i, body);
  }

  lemma CommentSkipped(text: Text, i: nat)
    requires i + 2 <= |text| && text[i] == '/' as nat
    ensures text[i + 1] == '*' as nat && BlockCommentEnd(text, i + 2).Some? ==>
              SkipComments(text, i) == SkipComments(text, BlockCommentEnd(text, i + 2).value)
    ensures text[i + 1] == '/' as nat ==> SkipComments(text, i) == SkipComments(text, LineCommentEnd(text, i + 2))
  {
    hide BlockCommentEnd, LineCommentEnd;
    assert SkipWhitespace(text, i) == i;
  }

  lemma NothingToSkip(comments: bool, text: Text, i: nat)
    requires i <= |text| && Stops(comments, Peek(text, i))
    ensures SkipAt(comments, text, i) == Some(i)
  {
    WhiteIsSpace(Peek(text, i));
  }

  lemma {:induction false} GapIsSkipped(comments: bool, text: Text, i: nat, g: Gap)
    requires GapOk(comments, g) && At(text, i, GapText(g))
    ensures i + |GapText(g)| <= |text| && SkipAt(comments, text, i) == SkipAt(comments, text, i + |GapText(g)|)
    decreases |g|
  {
    hide At, PieceOk, PieceText, SkipAt;
    AtFits(text, i, GapText(g));
    if g != [] {
      AtConcat(text, i, PieceText(g[0]), GapText(g[1..]));
      PieceSkipped(comments, text, i, g[0]);
      GapIsSkipped(comments, text, i + |PieceText(g[0])|, g[1..]);
    }
  }

  /** A gap up to something that stops it is skipped, and nothing else. */
  lemma GapEnds(c: Settings, text: Text, i: nat, g: Gap)
    requires GapOk(c.comments, g) && At(text, i, GapText(g)) && Stops(c.comments, Peek(text, i + |GapText(g)|))
    ensures i + |GapText(g)| <= |text| && ReaderOf(c).skip(text, i) == Some(i + |GapText(g)|)
  {
    hide At, SkipAt, GapText, GapOk;
    GapIsSkipped(c.comments, text, i, g);
    NothingToSkip(c.comments, text, i + |GapText(g)|);
    ReaderIs(c, text, i);
  }

  // ----- Strings are read -----

  lemma NibbleIsHex(c: nat)
    requires 0x30 <= c <= 0x39 || 0x41 <= c <= 0x46 || 0x61 <= c <= 0x66
    ensures HexValue(c) == Some(NibbleOf(c))
  {
  }

  lemma UnitIsRead(text: Text, i: nat, h: Text)
    requires HexDigits(h) && At(text, i, h)
    ensures ParseHex4(text, i) == Some(UnitOf(h))
  {
    AtIndex(text, i, h, 0);
    AtIndex(text, i, h, 1);
    AtIndex(text, i, h, 2);
    AtIndex(text, i, h, 3);
    NibbleIsHex(h[0]);
    NibbleIsHex(h[1]);
    NibbleIsHex(h[2]);
    NibbleIsHex(h[3]);
  }

  lemma ShortIsRead(e: nat)
    ensures e in {0x22, 0x5C, 0x2F, 0x62, 0x66, 0x6E, 0x72, 0x74} ==> Unescape(e) == ShortValue(e)
    ensures e !in {0x22, 0x5C, 0x2F, 0x62, 0x66, 0x6E, 0x72, 0x74} ==> Unescape(e) == 0
  {
  }

  lemma HexIsRead(text: Text, i: nat, h: Text)
    requires FormOk(Hex(h)) && At(text, i, FormText(Hex(h)))
    ensures CharAt(text, i) == Some((FormValue(Hex(h)), i + 6)) && text[i] == 0x5C
  {
    hide At, Encode, ParseHex4;
    AtConcat(text, i, ['\\' as nat, 'u' as nat], h);
    AtIndex(text, i, ['\\' as nat, 'u' as nat], 0);
    AtIndex(text, i, ['\\' as nat, 'u' as nat], 1);
    UnitIsRead(text, i + 2, h);
  }

  lemma PairIsRead(text: Text, i: nat, l: Text, t: Text)
    requires FormOk(Pair(l, t)) && At(text, i, FormText(Pair(l, t)))
    ensures CharAt(text, i) == Some((FormValue(Pair(l, t)), i + 12)) && text[i] == 0x5C
  {
    hide At, Encode, ParseHex4, UnitOf;
    var u := ['\\' as nat, 'u' as nat];
    AtConcat(text, i, u, l + (u + t));
    AtConcat(text, i + 2, l, u + t);
    AtConcat(text, i + 6, u, t);
    AtIndex(text, i, u, 0);
    AtIndex(text, i, u, 1);
    AtIndex(text, i + 6, u, 0);
    AtIndex(text, i + 6, u, 1);
    UnitIsRead(text, i + 2, l);
    UnitIsRead(text, i + 8, t);
  }

  lemma FormIsRead(text: Text, i: nat, f: CharForm)
    requires FormOk(f) && At(text, i, FormText(f))
    ensures i < |text| && text[i] != 0x22 && CharAt(text, i) == Some((FormValue(f), i + |FormText(f)|))
  {
    hide At, Encode, ParseHex4, UnitOf;
    AtFits(text, i, FormText(f));
    match f
    case Raw(b) => AtIndex(text, i, [b], 0);
    case Short(e) =>
      AtIndex(text, i, ['\\' as nat, e], 0);
      AtIndex(text, i, ['\\' as nat, e], 1);
      ShortIsRead(e);
    case Hex(h) => HexIsRead(text, i, h);
    case Pair(l, t) => PairIsRead(text, i, l, t);
  }

  lemma {:induction false} FormsAreRead(text: Text, i: nat, fs: seq<CharForm>, acc: Text)
    requires FormsOk(fs) && At(text, i, FormsText(fs) + ['"' as nat])
    ensures i <= |text| && StringFrom(text, i, acc) == Some((acc + FormsValue(fs), i + |FormsText(fs)| + 1))
    decreases |fs|
  {
    hide At, FormOk, FormText, FormValue, CharAt;
    AtFits(text, i, FormsText(fs) + ['"' as nat]);
    if fs == [] {
      assert FormsText(fs) + ['"' as nat] == ['"' as nat];
      AtIndex(text, i, ['"' as nat], 0);
      assert acc + [] == acc;
    } else {
      assert FormsText(fs) + ['"' as nat] == FormText(fs[0]) + (FormsText(fs[1..]) + ['"' as nat]);
      AtConcat(text, i, FormText(fs[0]), FormsText(fs[1..]) + ['"' as nat]);
      FormIsRead(text, i, fs[0]);
      FormsAreRead(text, i + |FormText(fs[0])|, fs[1..], acc + FormValue(fs[0]));
      assert acc + FormValue(fs[0]) + FormsValue(fs[1..]) == acc + FormsValue(fs);
    }
  }

  lemma NameIsRead(text: Text, i: nat, fs: seq<CharForm>)
    requires FormsOk(fs) && At(text, i, NameText(fs))
    ensures i < |text| && text[i] == 0x22 && StringFrom(text, i + 1, []) == Some((FormsValue(fs), i + |NameText(fs)|))
    ensures KeyAt(text, i) == Lexed(Key(FormsValue(fs)), i + |NameText(fs)|)
  {
    hide At, FormsText, StringFrom, FormsValue, FormsOk;
    AtConcat(text, i, ['"' as nat], FormsText(fs) + ['"' as nat]);
    AtIndex(text, i, ['"' as nat], 0);
    FormsAreRead(text, i + 1, fs, []);
    assert [] + FormsValue(fs) == FormsValue(fs);
  }

  // ----- Scalars are read -----

  /** What may not follow an integer, because it would be part of the number. */
  predicate Continues(c: nat) {
    0x30 <= c <= 0x39 || c == 0x2E || c == 0x45 || c == 0x65
  }

  /** What may follow an integer with these digits: behind a leading zero its own digits end. */
  predicate MayFollow(digits: Text, c: nat) {
    c != 0x2E && c != 0x45 && c != 0x65 && (digits != ['0' as nat] ==> !(0x30 <= c <= 0x39))
  }

  lemma {:induction false} DigitsThere(text: Text, i: nat, digits: Text, v: nat)
    requires AllDigits(digits) && At(text, i, digits)
    ensures i + |digits| <= |text| && forall k :: i <= k < i + |digits| ==> IsDigit(text[k])
    ensures DigitsValue(text, i, i + |digits|, v) == DigitsValue(digits, 0, |digits|, v)
  {
    AtFits(text, i, digits);
    forall k | 0 <= k < |digits| ensures text[i + k] == digits[k] {
      AtIndex(text, i, digits, k);
    }
    forall k | i <= k < i + |digits| ensures IsDigit(text[k]) {
      assert text[i + (k - i)] == digits[k - i];
    }
    SameDigitsValue(text, i, digits, 0, v);
  }

  lemma {:induction false} SameDigitsValue(text: Text, i: nat, digits: Text, k: nat, v: nat)
    requires k <= |digits| && i + |digits| <= |text| && forall l :: 0 <= l < |digits| ==> text[i + l] == digits[l]
    ensures DigitsValue(text, i + k, i + |digits|, v) == DigitsValue(digits, k, |digits|, v)
    decreases |digits| - k
  {
    if k < |digits| && IsDigit(digits[k]) {
      SameDigitsValue(text, i, digits, k + 1, v * 10 + (digits[k] - '0' as nat));
    }
  }

  lemma IntegerIsRead(double: (Text, nat) -> Lexed, text: Text, i: nat, minus: bool, digits: Text)
    requires IntegerOk(minus, digits) && At(text, i, (if minus then ['-' as nat] else []) + digits)
    requires MayFollow(digits, Peek(text, i + (if minus then 1 else 0) + |digits|))
    ensures var n := DigitsValue(digits, 0, |digits|, 0);
            i <= |text| && NumberAt(double, text, i) == Lexed(Value(Integer(if minus then 0 - n else n)), i + (if minus then 1 else 0) + |digits|)
    ensures Peek(text, i) == 0x2D || 0x30 <= Peek(text, i) <= 0x39
  {
    hide At, DigitsValue;
    var sign := if minus then ['-' as nat] else [];
    AtConcat(text, i, sign, digits);
    if minus {
      AtIndex(text, i, sign, 0);
    }
    var s := i + |sign|;
    AtIndex(text, s, digits, 0);
    DigitsThere(text, s, digits, 0);
    var e := s + |digits|;
    if digits[0] == '0' as nat {
      assert |digits| == 1;
    } else {
      DigitsEndAt(text, s, e);
    }
    FitsIs(minus, DigitsValue(digits, 0, |digits|, 0));
  }

  lemma FitsIs(minus: bool, v: nat)
    ensures Fits(minus, v) <==> v <= if minus then 0x8000_0000_0000_0000 else 0xFFFF_FFFF_FFFF_FFFF
  {
  }

  /** What a value begins with. */
  predicate Begins(c: nat) {
    !White(c) && c != 0x2F && !Structural(c)
  }

  lemma ScalarIsRead(c: Settings, text: Text, i: nat, t: Syntax)
    requires SyntaxOk(c.comments, c.trailingCommas, t) && (t.WordForm? || t.IntegerForm? || t.StringForm?) && At(text, i, SyntaxText(t))
    requires t.IntegerForm? ==> MayFollow(t.digits, Peek(text, i + |SyntaxText(t)|))
    ensures Meaning(t).Leaf? && ReaderOf(c).scalar(text, i) == Lexed(Value(Meaning(t).v), i + |SyntaxText(t)|)
    ensures Begins(Peek(text, i)) && Peek(text, i) != 0x5B && Peek(text, i) != 0x7B && i <= |text|
  {
    hide StringFrom, NumberAt, DigitsValue, FormsText, FormsValue, FormsOk;
    ReaderIs(c, text, i);
    AtFits(text, i, SyntaxText(t));
    match t
    case WordForm(s) => AtIndex(text, i, WordText(s), 0);
    case IntegerForm(minus, digits) => IntegerIsRead(c.double, text, i, minus, digits);
    case StringForm(chars) => NameIsRead(text, i, chars);
  }

  // ----- Values are read -----

  lemma LastClosed(c: Settings, text: Text, i: nat, trailing: bool, next: Gap, closing: nat)
    requires SettingsOk(c) && (closing == ']' as nat || closing == '}' as nat) && (trailing ==> c.trailingCommas)
    requires GapOk(c.comments, next) && At(text, i, CloseText(trailing, next, closing))
    ensures i <= |text| && Sound(ReaderOf(c)) && LastEnd(ReaderOf(c), text, i, closing) == Some(i + |CloseText(trailing, next, closing)|)
    ensures Peek(text, i) == closing || Peek(text, i) == 0x2C
  {
    hide At, GapText, GapOk, SettingsOk, Sound;
    SettingsSound(c);
    AtFits(text, i, CloseText(trailing, next, closing));
    if trailing {
      AtConcat(text, i, [',' as nat], GapText(next) + [closing]);
      AtConcat(text, i + 1, GapText(next), [closing]);
      AtIndex(text, i, [',' as nat], 0);
      AtIndex(text, i + 1 + |GapText(next)|, [closing], 0);
      GapEnds(c, text, i + 1, next);
    } else {
      AtIndex(text, i, [closing], 0);
    }
  }

  /** Where the parts of a text stand. */
  lemma TwoParts(text: Text, i: nat, a: Text, b: Text, rest: Text)
    requires At(text, i, a + (b + rest))
    ensures At(text, i, a) && At(text, i + |a|, b) && At(text, i + |a| + |b|, rest) && i + |a| + |b| + |rest| <= |text|
  {
    hide At;
    AtConcat(text, i, a, b + rest);
    AtConcat(text, i + |a|, b, rest);
  }

  lemma ListParts(text: Text, i: nat, first: Text, after: Text, next: Text, rest: Text)
    requires At(text, i, first + (after + ([',' as nat] + (next + rest))))
    ensures At(text, i, first) && At(text, i + |first|, after)
    ensures var j := i + |first| + |after|;
            && j < |text| && text[j] == ',' as nat && At(text, j + 1, next) && At(text, j + 1 + |next|, rest)
            && j + 1 + |next| + |rest| <= |text|
  {
    hide At;
    TwoParts(text, i, first, after, [',' as nat] + (next + rest));
    TwoParts(text, i + |first| + |after|, [',' as nat], next, rest);
    AtIndex(text, i + |first| + |after|, [',' as nat], 0);
  }

  lemma {:induction false} SyntaxIsRead(c: Settings, t: Syntax, text: Text, i: nat)
    requires SettingsOk(c) && SyntaxOk(c.comments, c.trailingCommas, t) && At(text, i, SyntaxText(t))
    requires t.IntegerForm? ==> MayFollow(t.digits, Peek(text, i + |SyntaxText(t)|))
    ensures Sound(ReaderOf(c)) && i <= |text| && ValueEnd(ReaderOf(c), Meaning(t), text, i) == Some(i + |SyntaxText(t)|)
    ensures Begins(Peek(text, i))
    decreases t, 0
  {
    hide At, ReaderOf, SettingsOk, ValueEnd, ElementsEnd, MembersEnd, ElementsText, EntriesText, GapText, GapOk, Sound, ElementOk, EntryOk;
    SettingsSound(c);
    match t
    case ArrayForm(inner, es, trailing) =>
      ArrayIsRead(c, inner, es, trailing, text, i);
    case ObjectForm(inner, ms, trailing) =>
      ObjectIsRead(c, inner, ms, trailing, text, i);
    case _ =>
      ScalarIsRead(c, text, i, t);
      LeafEnd(ReaderOf(c), Meaning(t).v, text, i, i + |SyntaxText(t)|);
  }

  lemma {:induction false} ArrayIsRead(c: Settings, inner: Gap, es: seq<Element>, trailing: bool, text: Text, i: nat)
    requires SettingsOk(c) && GapOk(c.comments, inner) && (trailing ==> c.trailingCommas)
    requires forall k :: 0 <= k < |es| ==> ElementOk(c.comments, c.trailingCommas, es[k])
    requires At(text, i, ['[' as nat] + (GapText(inner) + if es == [] then [']' as nat] else ElementsText(es, trailing)))
    ensures Sound(ReaderOf(c)) && i < |text| && text[i] == '[' as nat
    ensures ValueEnd(ReaderOf(c), Array(Elements(es)), text, i) ==
            Some(i + 1 + |GapText(inner)| + if es == [] then 1 else |ElementsText(es, trailing)|)
    decreases es, 2
  {
    hide At, ReaderOf, SettingsOk, ValueEnd, ElementsEnd, ElementsText, GapText, GapOk, Sound, ElementOk;
    SettingsSound(c);
    var rest := if es == [] then [']' as nat] else ElementsText(es, trailing);
    var j := i + 1 + |GapText(inner)|;
    TwoParts(text, i, ['[' as nat], GapText(inner), rest);
    AtIndex(text, i, ['[' as nat], 0);
    if es == [] {
      AtIndex(text, j, [']' as nat], 0);
    } else {
      ElementsAreRead(c, es, trailing, text, j);
    }
    GapEnds(c, text, i + 1, inner);
    ArrayEnd(ReaderOf(c), Elements(es), text, i, j, j + |rest|);
  }

  lemma {:induction false} ObjectIsRead(c: Settings, inner: Gap, ms: seq<Entry>, trailing: bool, text: Text, i: nat)
    requires SettingsOk(c) && GapOk(c.comments, inner) && (trailing ==> c.trailingCommas)
    requires forall k :: 0 <= k < |ms| ==> EntryOk(c.comments, c.trailingCommas, ms[k])
    requires At(text, i, ['{' as nat] + (GapText(inner) + if ms == [] then ['}' as nat] else EntriesText(ms, trailing)))
    ensures Sound(ReaderOf(c)) && i < |text| && text[i] == '{' as nat
    ensures ValueEnd(ReaderOf(c), Object(Members(ms)), text, i) ==
            Some(i + 1 + |GapText(inner)| + if ms == [] then 1 else |EntriesText(ms, trailing)|)
    decreases ms, 3
  {
    hide At, ReaderOf, SettingsOk, ValueEnd, MembersEnd, EntriesText, GapText, GapOk, Sound, EntryOk;
    SettingsSound(c);
    var rest := if ms == [] then ['}' as nat] else EntriesText(ms, trailing);
    var j := i + 1 + |GapText(inner)|;
    TwoParts(text, i, ['{' as nat], GapText(inner), rest);
    AtIndex(text, i, ['{' as nat], 0);
    if ms == [] {
      AtIndex(text, j, ['}' as nat], 0);
    } else {
      EntriesAreRead(c, ms, trailing, text, j);
    }
    GapEnds(c, text, i + 1, inner);
    ObjectEnd(ReaderOf(c), Members(ms), text, i, j, j + |rest|);
  }

  /** A number is not continued by a gap, nor by what may stand behind the gap. */
  lemma GapEndsNumber(comments: bool, text: Text, i: nat, g: Gap)
    requires GapOk(comments, g) && At(text, i, GapText(g)) && !Continues(Peek(text, i + |GapText(g)|))
    ensures !Continues(Peek(text, i))
  {
    if g != [] {
      assert PieceOk(comments, g[0]);
      AtConcat(text, i, PieceText(g[0]), GapText(g[1..]));
      AtIndex(text, i, PieceText(g[0]), 0);
    }
  }

  lemma ElementsEndLast(r: Reader, es: seq<Json>, text: Text, i: nat, e: nat, j: nat, end: nat)
    requires Sound(r) && i <= |text| && |es| == 1 && ValueEnd(r, es[0], text, i) == Some(e) && r.skip(text, e) == Some(j)
    requires LastEnd(r, text, j, RIGHT_BRACKET) == Some(end)
    ensures ElementsEnd(r, es, text, i) == Some(end)
  {
    hide ValueEnd, LastEnd;
  }

  lemma MembersEndLast(r: Reader, ms: seq<Member>, text: Text, i: nat, e: nat, j: nat, end: nat)
    requires Sound(r) && i <= |text| && |ms| == 1 && MemberEnd(r, ms[0], text, i) == Some(e) && r.skip(text, e) == Some(j)
    requires LastEnd(r, text, j, RIGHT_CURLY) == Some(end)
    ensures MembersEnd(r, ms, text, i) == Some(end)
  {
    hide MemberEnd, LastEnd;
  }

  lemma ElementsStep(es: seq<Element>, trailing: bool)
    requires es != []
    ensures Elements(es) == [Meaning(es[0].value)] + Elements(es[1..]) && Elements(es)[1..] == Elements(es[1..])
    ensures ElementsText(es, trailing) ==
            SyntaxText(es[0].value) + (GapText(es[0].after) +
              if |es| == 1 then CloseText(trailing, es[0].next, ']' as nat)
              else [',' as nat] + (GapText(es[0].next) + ElementsText(es[1..], trailing)))
  {
    hide SyntaxText, GapText, Meaning, CloseText;
  }

  /** The gap behind a child, up to a comma or the closing bracket. */
  lemma AfterIsRead(c: Settings, text: Text, e: nat, after: Gap)
    requires GapOk(c.comments, after) && At(text, e, GapText(after)) && Peek(text, e + |GapText(after)|) in {0x2C, 0x5D, 0x7D}
    ensures e <= |text| && !Continues(Peek(text, e)) && ReaderOf(c).skip(text, e) == Some(e + |GapText(after)|)
  {
    hide At, ReaderOf, GapText, GapOk;
    GapEndsNumber(c.comments, text, e, after);
    GapEnds(c, text, e, after);
  }

  lemma {:induction false} ElementsAreRead(c: Settings, es: seq<Element>, trailing: bool, text: Text, i: nat)
    requires SettingsOk(c) && es != [] && (trailing ==> c.trailingCommas) && At(text, i, ElementsText(es, trailing))
    requires forall k :: 0 <= k < |es| ==> ElementOk(c.comments, c.trailingCommas, es[k])
    ensures Sound(ReaderOf(c)) && i <= |text| && ElementsEnd(ReaderOf(c), Elements(es), text, i) == Some(i + |ElementsText(es, trailing)|)
    ensures Begins(Peek(text, i))
    decreases es, 1
  {
    hide At, ReaderOf, SettingsOk, ValueEnd, ElementsEnd, SyntaxText, GapText, GapOk, Sound, SyntaxOk, Meaning, CloseText, LastEnd,
         Elements, ElementsText, White, Begins, MayFollow, Continues;
    SettingsSound(c);
    ElementsStep(es, trailing);
    assert ElementOk(c.comments, c.trailingCommas, es[0]);
    var r, first, after := ReaderOf(c), es[0].value, es[0].after;
    var e := i + |SyntaxText(first)|;
    var j := e + |GapText(after)|;
    if |es| == 1 {
      var rest := CloseText(trailing, es[0].next, ']' as nat);
      TwoParts(text, i, SyntaxText(first), GapText(after), rest);
      LastClosed(c, text, j, trailing, es[0].next, ']' as nat);
      AfterIsRead(c, text, e, after);
      EndsAll(first, Peek(text, e));
      SyntaxIsRead(c, first, text, i);
      ElementsEndLast(r, Elements(es), text, i, e, j, j + |rest|);
    } else {
      var next := es[0].next;
      var rest := ElementsText(es[1..], trailing);
      ListParts(text, i, SyntaxText(first), GapText(after), GapText(next), rest);
      ElementsAreRead(c, es[1..], trailing, text, j + 1 + |GapText(next)|);
      AfterIsRead(c, text, e, after);
      EndsAll(first, Peek(text, e));
      SyntaxIsRead(c, first, text, i);
      BeginsStops(c.comments, Peek(text, j + 1 + |GapText(next)|));
      GapEnds(c, text, j + 1, next);
      ElementsEndStep(r, Elements(es), text, i, e, j, j + 1 + |GapText(next)| + |rest|);
    }
  }

  lemma QuoteStops(comments: bool)
    ensures Stops(comments, 0x22)
  {
  }

  lemma EndsAll(t: Syntax, c: nat)
    ensures t.IntegerForm? && !Continues(c) ==> MayFollow(t.digits, c)
  {
  }

  lemma BeginsStops(comments: bool, c: nat)
    ensures Begins(c) ==> Stops(comments, c)
  {
  }

  lemma {:induction false} EntryIsRead(c: Settings, m: Entry, text: Text, i: nat)
    requires SettingsOk(c) && EntryOk(c.comments, c.trailingCommas, m) && At(text, i, EntryText(m))
    requires m.value.IntegerForm? ==> MayFollow(m.value.digits, Peek(text, i + |EntryText(m)|))
    ensures Sound(ReaderOf(c)) && i < |text| && text[i] == 0x22
    ensures MemberEnd(ReaderOf(c), Member(FormsValue(m.name), Meaning(m.value)), text, i) == Some(i + |EntryText(m)|)
    decreases m, 1
  {
    hide At, ReaderOf, SettingsOk, ValueEnd, MemberEnd, SyntaxText, GapText, GapOk, Sound, SyntaxOk, Meaning, NameText, FormsValue, FormsOk, KeyAt, StringFrom;
    SettingsSound(c);
    var a := i + |NameText(m.name)|;
    var b := a + |GapText(m.beforeColon)|;
    var d := b + 1 + |GapText(m.afterColon)|;
    AtConcat(text, i, NameText(m.name), GapText(m.beforeColon) + ([':' as nat] + (GapText(m.afterColon) + SyntaxText(m.value))));
    AtConcat(text, a, GapText(m.beforeColon), [':' as nat] + (GapText(m.afterColon) + SyntaxText(m.value)));
    AtConcat(text, b, [':' as nat], GapText(m.afterColon) + SyntaxText(m.value));
    AtConcat(text, b + 1, GapText(m.afterColon), SyntaxText(m.value));
    AtIndex(text, b, [':' as nat], 0);
    NameIsRead(text, i, m.name);
    ReaderIs(c, text, i);
    SyntaxIsRead(c, m.value, text, d);
    GapEnds(c, text, a, m.beforeColon);
    GapEnds(c, text, b + 1, m.afterColon);
    MemberEndStep(ReaderOf(c), Member(FormsValue(m.name), Meaning(m.value)), text, i, a, b, d, d + |SyntaxText(m.value)|);
  }

  lemma EntriesStep(ms: seq<Entry>, trailing: bool)
    requires ms != []
    ensures Members(ms) == [Member(FormsValue(ms[0].name), Meaning(ms[0].value))] + Members(ms[1..]) && Members(ms)[1..] == Members(ms[1..])
    ensures EntriesText(ms, trailing) ==
            EntryText(ms[0]) + (GapText(ms[0].after) +
              if |ms| == 1 then CloseText(trailing, ms[0].next, '}' as nat)
              else [',' as nat] + (GapText(ms[0].next) + EntriesText(ms[1..], trailing)))
  {
    hide EntryText, GapText, Meaning, CloseText, FormsValue;
  }

  lemma {:induction false} EntriesAreRead(c: Settings, ms: seq<Entry>, trailing: bool, text: Text, i: nat)
    requires SettingsOk(c) && ms != [] && (trailing ==> c.trailingCommas) && At(text, i, EntriesText(ms, trailing))
    requires forall k :: 0 <= k < |ms| ==> EntryOk(c.comments, c.trailingCommas, ms[k])
    ensures Sound(ReaderOf(c)) && i < |text| && MembersEnd(ReaderOf(c), Members(ms), text, i) == Some(i + |EntriesText(ms, trailing)|)
    ensures text[i] == 0x22
    decreases ms, 2
  {
    hide At, ReaderOf, SettingsOk, MemberEnd, MembersEnd, EntryText, GapText, GapOk, Sound, SyntaxOk, Meaning, FormsValue, CloseText, LastEnd,
         Members, EntriesText, White, Begins, MayFollow, Continues;
    SettingsSound(c);
    EntriesStep(ms, trailing);
    assert EntryOk(c.comments, c.trailingCommas, ms[0]);
    var r, first, after := ReaderOf(c), ms[0], ms[0].after;
    var e := i + |EntryText(first)|;
    var j := e + |GapText(after)|;
    if |ms| == 1 {
      var rest := CloseText(trailing, first.next, '}' as nat);
      TwoParts(text, i, EntryText(first), GapText(after), rest);
      LastClosed(c, text, j, trailing, first.next, '}' as nat);
      AfterIsRead(c, text, e, after);
      EndsAll(first.value, Peek(text, e));
      EntryIsRead(c, first, text, i);
      MembersEndLast(r, Members(ms), text, i, e, j, j + |rest|);
    } else {
      var next := first.next;
      var rest := EntriesText(ms[1..], trailing);
      ListParts(text, i, EntryText(first), GapText(after), GapText(next), rest);
      EntriesAreRead(c, ms[1..], trailing, text, j + 1 + |GapText(next)|);
      AfterIsRead(c, text, e, after);
      EndsAll(first.value, Peek(text, e));
      EntryIsRead(c, first, text, i);
      QuoteStops(c.comments);
      GapEnds(c, text, j + 1, next);
      MembersEndStep(r, Members(ms), text, i, e, j, j + 1 + |GapText(next)| + |rest|);
    }
  }

  // ----- Whole texts are read -----

  predicate WholeOk(c: Settings, d: Whole) {
    && GapOk(c.comments, d.before) && SyntaxOk(c.comments, c.trailingCommas, d.root) && GapOk(c.comments, d.after)
    && (d.tail.Some? ==> c.comments && LineBody(d.tail.value))
  }

  /** The text up to `end` is this one; then comes its end, or anything if the reader stops behind the root. */
  predicate Spells(c: Settings, d: Whole, text: Text, end: nat) {
    && end <= |text| && text[..end] == WholeText(d)
    && if c.stopWhenDone then d.after == [] && d.tail.None? && (d.root.IntegerForm? ==> MayFollow(d.root.digits, Peek(text, end)))
       else Peek(text, end) == 0
  }

  lemma TailIsRead(c: Settings, text: Text, i: nat, tail: Option<Text>)
    requires At(text, i, TailText(tail)) && Peek(text, i + |TailText(tail)|) == 0 && (tail.Some? ==> c.comments && LineBody(tail.value))
    ensures i <= |text| && SkipAt(c.comments, text, i) == Some(i + |TailText(tail)|) && !Continues(Peek(text, i))
  {
    hide At, LineBody, SkipComments, SkipWhitespace, LineCommentEnd;
    AtFits(text, i, TailText(tail));
    NothingToSkip(c.comments, text, i + |TailText(tail)|);
    if tail.Some? {
      AtConcat(text, i, ['/' as nat, '/' as nat], tail.value);
      AtIndex(text, i, ['/' as nat, '/' as nat], 0);
      AtIndex(text, i, ['/' as nat, '/' as nat], 1);
      TailSkipped(text, i + 2, tail.value);
      CommentSkipped(text, i);
    }
  }

  /** Every well-formed text is read to its end as what it means. */
  lemma WholeIsRead(c: Settings, d: Whole, text: Text, end: nat)
    requires SettingsOk(c) && WholeOk(c, d) && Spells(c, d, text, end)
    ensures Sound(ReaderOf(c)) && DocumentEnd(ReaderOf(c), Meaning(d.root), text) == Some(end)
  {
    hide At, ReaderOf, SettingsOk, ValueEnd, GapText, GapOk, Sound, SyntaxOk, SyntaxText, Meaning, TailText, SkipAt, LineBody;
    SettingsSound(c);
    WholeParts(d, text, end);
    var a := |GapText(d.before)|;
    var e := a + |SyntaxText(d.root)|;
    var f := e + |GapText(d.after)|;
    if c.stopWhenDone {
      NoTail(d.after, d.tail);
    } else {
      TailIsRead(c, text, f, d.tail);
      GapIsSkipped(c.comments, text, e, d.after);
      GapEndsNumber(c.comments, text, e, d.after);
      ReaderIs(c, text, e);
    }
    ReaderFlags(c);
    SyntaxIsRead(c, d.root, text, a);
    BeginsStops(c.comments, Peek(text, a));
    GapEnds(c, text, 0, d.before);
  }

  lemma ReaderFlags(c: Settings)
    ensures ReaderOf(c).stopWhenDone == c.stopWhenDone && ReaderOf(c).trailingCommas == c.trailingCommas
  {
  }

  lemma WholeParts(d: Whole, text: Text, end: nat)
    requires end <= |text| && text[..end] == WholeText(d)
    ensures var a := |GapText(d.before)|;
            var e := a + |SyntaxText(d.root)|;
            var f := e + |GapText(d.after)|;
            && At(text, 0, GapText(d.before)) && At(text, a, SyntaxText(d.root)) && At(text, e, GapText(d.after))
            && At(text, f, TailText(d.tail)) && f + |TailText(d.tail)| == end
  {
    hide GapText, SyntaxText, TailText;
    assert text[0..0 + |WholeText(d)|] == text[..end];
    assert At(text, 0, WholeText(d));
    hide At;
    TwoParts(text, 0, GapText(d.before), SyntaxText(d.root), GapText(d.after) + TailText(d.tail));
    AtConcat(text, |GapText(d.before)| + |SyntaxText(d.root)|, GapText(d.after), TailText(d.tail));
  }

  lemma NoTail(after: Gap, tail: Option<Text>)
    ensures after == [] ==> GapText(after) == []
    ensures tail.None? ==> TailText(tail) == []
  {
  }

  /** Whatever white space, comments, escapes and trailing commas it is written with, a value is accepted and reported as its events. */
  lemma SyntaxAccepted(c: Settings, d: Whole, text: Text, end: nat)
    requires DoublesOk(c.double) && Agreeable(ReaderOf(c)) && WholeOk(c, d) && Spells(c, d, text, end)
    ensures Sound(ReaderOf(c)) && Document(ReaderOf(c), text) == Accepted(end, EventsOf(Meaning(d.root)))
  {
    hide Document, DocumentEnd, WholeOk, Spells, Meaning;
    LexerIsSound(c.double, c.accepts, c.comments, c.trailingCommas, c.stopWhenDone);
    WholeIsRead(c, d, text, end);
    AcceptedIsSpelled(ReaderOf(c), text, end, EventsOf(Meaning(d.root)));
  }

  // ----- Whatever is accepted is well formed -----

  /** Numbers that are not 64-bit integers are refused. */
  ghost predicate NoDoubles(double: (Text, nat) -> Lexed) {
    forall t: Text, i: nat {:trigger double(t, i)} :: double(t, i).Malformed?
  }

  lemma AtSlice(text: Text, i: nat, j: nat)
    requires i <= j <= |text|
    ensures At(text, i, text[i..j])
  {
  }

  lemma {:induction false} BlockFound(text: Text, i: nat) returns (body: Text)
    requires i <= |text| && BlockCommentEnd(text, i).Some?
    ensures BlockBody(body) && At(text, i, body + ['*' as nat, '/' as nat])
    ensures BlockCommentEnd(text, i) == Some(i + |body| + 2)
    decreases |text| - i
  {
    hide At;
    if Peek(text, i) == '*' as nat && Peek(text, i + 1) == '/' as nat {
      body := [];
      AtSlice(text, i, i + 2);
      assert text[i..i + 2] == [] + ['*' as nat, '/' as nat];
    } else {
      var rest := BlockFound(text, i + 1);
      body := [text[i]] + rest;
      if rest != [] {
        AtIndex(text, i + 1, rest + ['*' as nat, '/' as nat], 0);
      }
      AtSlice(text, i, i + 1);
      assert text[i..i + 1] == [text[i]];
      AtJoin(text, i, [text[i]], rest + ['*' as nat, '/' as nat]);
      assert [text[i]] + (rest + ['*' as nat, '/' as nat]) == body + ['*' as nat, '/' as nat];
    }
  }

  /** A line comment ends with a line feed, or where the text ends. */
  lemma {:induction false} LineFound(text: Text, i: nat) returns (body: Text, feed: bool)
    requires i <= |text|
    ensures LineBody(body) && At(text, i, body + if feed then ['\n' as nat] else [])
    ensures LineCommentEnd(text, i) == i + |body| + (if feed then 1 else 0)
    ensures !feed ==> Peek(text, i + |body|) == 0
    decreases |text| - i
  {
    if Peek(text, i) == 0 {
      body, feed := [], false;
      AtSlice(text, i, i);
    } else if text[i] == '\n' as nat {
      body, feed := [], true;
      AtSlice(text, i, i + 1);
      assert text[i..i + 1] == [] + ['\n' as nat];
    } else {
      var rest;
      rest, feed := LineFound(text, i + 1);
      body := [text[i]] + rest;
      var end := if feed then ['\n' as nat] else [];
      AtSlice(text, i, i + 1);
      assert text[i..i + 1] == [text[i]];
      AtJoin(text, i, [text[i]], rest + end);
      assert [text[i]] + (rest + end) == body + end;
    }
  }

  ghost predicate GapFrom(comments: bool, text: Text, i: nat, g: Gap, tail: Option<Text>) {
    && GapOk(comments, g) && At(text, i, GapText(g)) && At(text, i + |GapText(g)|, TailText(tail))
    && (tail.Some? ==> comments && LineBody(tail.value) && Peek(text, i + |GapText(g)| + |TailText(tail)|) == 0)
  }

  lemma GapMore(comments: bool, text: Text, i: nat, p: GapPiece, g: Gap, tail: Option<Text>)
    requires PieceOk(comments, p) && At(text, i, PieceText(p)) && GapFrom(comments, text, i + |PieceText(p)|, g, tail)
    ensures GapFrom(comments, text, i, [p] + g, tail) && |GapText([p] + g)| == |PieceText(p)| + |GapText(g)|
  {
    hide At, PieceOk, PieceText, LineBody;
    assert ([p] + g)[1..] == g;
    AtJoin(text, i, PieceText(p), GapText(g));
  }

  lemma NoGap(comments: bool, text: Text, i: nat)
    requires i <= |text|
    ensures GapFrom(comments, text, i, [], None)
  {
    AtSlice(text, i, i);
  }

  /** What is skipped is a gap. */
  lemma {:induction false} GapFound(comments: bool, text: Text, i: nat) returns (g: Gap, tail: Option<Text>)
    requires i <= |text| && SkipAt(comments, text, i).Some?
    ensures GapFrom(comments, text, i, g, tail) && SkipAt(comments, text, i) == Some(i + |GapText(g)| + |TailText(tail)|)
    ensures Stops(comments, Peek(text, SkipAt(comments, text, i).value))
    decreases |text| - i
  {
    hide At, GapText, GapFrom, BlockBody, LineBody, BlockCommentEnd, LineCommentEnd;
    WhiteIsSpace(Peek(text, i));
    if White(Peek(text, i)) {
      SpaceSkipped(comments, text, i);
      g, tail := GapFound(comments, text, i + 1);
      AtSlice(text, i, i + 1);
      assert text[i..i + 1] == PieceText(Space(text[i]));
      GapMore(comments, text, i, Space(text[i]), g, tail);
      g := [Space(text[i])] + g;
    } else if comments && Peek(text, i) == '/' as nat {
      g, tail := CommentFound(text, i);
    } else {
      g, tail := [], None;
      NoGap(comments, text, i);
      NothingToSkip(comments, text, i);
      NoTail(g, tail);
    }
  }

  lemma BlockPieceFound(text: Text, i: nat) returns (body: Text)
    requires i + 2 <= |text| && text[i] == '/' as nat && text[i + 1] == '*' as nat && BlockCommentEnd(text, i + 2).Some?
    ensures BlockBody(body) && At(text, i, PieceText(Block(body)))
    ensures i + |body| + 4 <= |text| && SkipComments(text, i) == SkipComments(text, i + |body| + 4)
  {
    hide At, BlockBody, SkipComments, BlockCommentEnd, PieceText;
    body := BlockFound(text, i + 2);
    CommentSkipped(text, i);
    AtSlice(text, i, i + 2);
    assert text[i..i + 2] == ['/' as nat, '*' as nat];
    AtJoin(text, i, ['/' as nat, '*' as nat], body + ['*' as nat, '/' as nat]);
    BlockText(body);
  }

  lemma BlockText(body: Text)
    ensures PieceText(Block(body)) == ['/' as nat, '*' as nat] + (body + ['*' as nat, '/' as nat])
    ensures |PieceText(Block(body))| == |body| + 4
  {
  }

  lemma LinePieceFound(text: Text, i: nat) returns (body: Text, feed: bool)
    requires i + 2 <= |text| && text[i] == text[i + 1] == '/' as nat
    ensures LineBody(body) && At(text, i, ['/' as nat, '/' as nat] + (body + if feed then ['\n' as nat] else []))
    ensures var e := i + 2 + |body| + (if feed then 1 else 0);
            e <= |text| && SkipComments(text, i) == SkipComments(text, e) && (!feed ==> Peek(text, e) == 0)
  {
    hide At, LineBody, SkipComments, LineCommentEnd;
    body, feed := LineFound(text, i + 2);
    CommentSkipped(text, i);
    AtSlice(text, i, i + 2);
    assert text[i..i + 2] == ['/' as nat, '/' as nat];
    AtJoin(text, i, ['/' as nat, '/' as nat], body + if feed then ['\n' as nat] else []);
  }

  lemma {:induction false} CommentFound(text: Text, i: nat) returns (g: Gap, tail: Option<Text>)
    requires i < |text| && text[i] == '/' as nat && SkipAt(true, text, i).Some?
    ensures GapFrom(true, text, i, g, tail) && SkipAt(true, text, i) == Some(i + |GapText(g)| + |TailText(tail)|)
    ensures Stops(true, Peek(text, SkipAt(true, text, i).value))
    decreases |text| - i, 0
  {
    hide At, GapText, GapFrom, BlockBody, LineBody, BlockCommentEnd, LineCommentEnd, SkipComments;
    CommentOpens(text, i);
    if Peek(text, i + 1) == '*' as nat {
      var body := BlockPieceFound(text, i);
      g, tail := GapFound(true, text, i + |body| + 4);
      GapMore(true, text, i, Block(body), g, tail);
      g := [Block(body)] + g;
    } else {
      var body, feed := LinePieceFound(text, i);
      if feed {
        g, tail := GapFound(true, text, i + |body| + 3);
        GapMore(true, text, i, Line(body), g, tail);
        g := [Line(body)] + g;
      } else {
        g, tail := [], Some(body);
        assert body + [] == body;
        NothingToSkip(true, text, i + 2 + |body|);
        LastComment(text, i, body);
      }
    }
  }

  lemma CommentOpens(text: Text, i: nat)
    requires i < |text| && text[i] == '/' as nat && SkipComments(text, i).Some?
    ensures i + 1 < |text| && (text[i + 1] == '*' as nat || text[i + 1] == '/' as nat)
    ensures text[i + 1] == '*' as nat ==> BlockCommentEnd(text, i + 2).Some?
  {
    hide BlockCommentEnd, LineCommentEnd;
    assert SkipWhitespace(text, i) == i;
  }

  lemma LastComment(text: Text, i: nat, body: Text)
    requires At(text, i, ['/' as nat, '/' as nat] + body) && LineBody(body) && Peek(text, i + 2 + |body|) == 0
    ensures GapFrom(true, text, i, [], Some(body)) && |GapText([])| == 0
  {
    AtFits(text, i, ['/' as nat, '/' as nat] + body);
    AtSlice(text, i, i);
  }

  /** A gap inside a value, where something follows it. */
  lemma InnerGapFound(c: Settings, text: Text, i: nat) returns (g: Gap)
    requires i <= |text| && ReaderOf(c).skip(text, i).Some? && Peek(text, ReaderOf(c).skip(text, i).value) != 0
    ensures GapOk(c.comments, g) && At(text, i, GapText(g)) && ReaderOf(c).skip(text, i) == Some(i + |GapText(g)|)
  {
    hide At, ReaderOf, GapText, GapOk, SkipAt, LineBody;
    ReaderIs(c, text, i);
    var tail;
    g, tail := GapFound(c.comments, text, i);
    NoTail(g, tail);
  }

  lemma NibbleFound(c: nat)
    requires HexValue(c).Some?
    ensures 0x30 <= c <= 0x39 || 0x41 <= c <= 0x46 || 0x61 <= c <= 0x66
  {
  }

  lemma UnitFound(text: Text, i: nat)
    requires ParseHex4(text, i).Some?
    ensures i + 4 <= |text| && HexDigits(text[i..i + 4]) && UnitOf(text[i..i + 4]) == ParseHex4(text, i).value
  {
    NibbleFound(Peek(text, i));
    NibbleFound(Peek(text, i + 1));
    NibbleFound(Peek(text, i + 2));
    NibbleFound(Peek(text, i + 3));
    AtSlice(text, i, i + 4);
    UnitIsRead(text, i, text[i..i + 4]);
  }

  lemma EscapeFound(text: Text, i: nat) returns (f: CharForm)
    requires i < |text| && text[i] == 0x5C && Peek(text, i + 1) == 'u' as nat && CharAt(text, i).Some?
    ensures FormOk(f) && At(text, i, FormText(f))
  {
    hide At, Encode, ParseHex4, UnitOf, HexDigits;
    UnitFound(text, i + 2);
    var u, h := ['\\' as nat, 'u' as nat], text[i + 2..i + 6];
    AtSlice(text, i, i + 2);
    assert text[i..i + 2] == u;
    AtSlice(text, i + 2, i + 6);
    assert |h| == 4;
    if 0xD800 <= UnitOf(h) <= 0xDBFF {
      UnitFound(text, i + 8);
      var t := text[i + 8..i + 12];
      f := Pair(h, t);
      AtSlice(text, i + 6, i + 8);
      assert text[i + 6..i + 8] == u;
      AtSlice(text, i + 8, i + 12);
      AtJoin(text, i + 6, u, t);
      AtJoin(text, i + 2, h, u + t);
      AtJoin(text, i, u, h + (u + t));
    } else {
      f := Hex(h);
      AtJoin(text, i, u, h);
    }
  }

  lemma FormFound(text: Text, i: nat) returns (f: CharForm)
    requires i <= |text| && CharAt(text, i).Some? && Peek(text, i) != 0x22
    ensures FormOk(f) && At(text, i, FormText(f)) && CharAt(text, i) == Some((FormValue(f), i + |FormText(f)|))
  {
    hide At, Encode, ParseHex4, UnitOf;
    if Peek(text, i) != 0x5C {
      f := Raw(text[i]);
      AtSlice(text, i, i + 1);
      assert text[i..i + 1] == [text[i]];
    } else if Peek(text, i + 1) == 'u' as nat {
      f := EscapeFound(text, i);
    } else {
      var e := Peek(text, i + 1);
      ShortIsRead(e);
      f := Short(e);
      AtSlice(text, i, i + 2);
      assert text[i..i + 2] == ['\\' as nat, e];
    }
    FormIsRead(text, i, f);
  }

  lemma {:induction false} FormsFound(text: Text, i: nat, acc: Text) returns (fs: seq<CharForm>)
    requires i <= |text| && StringFrom(text, i, acc).Some?
    ensures FormsOk(fs) && At(text, i, FormsText(fs) + ['"' as nat])
    ensures StringFrom(text, i, acc) == Some((acc + FormsValue(fs), i + |FormsText(fs)| + 1))
    decreases |text| - i
  {
    hide At, FormOk, FormText, FormValue, CharAt;
    if Peek(text, i) == 0x22 {
      fs := [];
      AtSlice(text, i, i + 1);
      assert text[i..i + 1] == [] + ['"' as nat];
      assert acc + [] == acc;
    } else {
      var f := FormFound(text, i);
      var rest := FormsFound(text, i + |FormText(f)|, acc + FormValue(f));
      fs := [f] + rest;
      assert fs[1..] == rest;
      AtJoin(text, i, FormText(f), FormsText(rest) + ['"' as nat]);
      assert FormText(f) + (FormsText(rest) + ['"' as nat]) == FormsText(fs) + ['"' as nat];
      assert acc + FormValue(f) + FormsValue(rest) == acc + FormsValue(fs);
    }
  }

  lemma NameFound(text: Text, i: nat) returns (fs: seq<CharForm>)
    requires i < |text| && text[i] == 0x22 && StringFrom(text, i + 1, []).Some?
    ensures FormsOk(fs) && At(text, i, NameText(fs))
    ensures StringFrom(text, i + 1, []) == Some((FormsValue(fs), i + |NameText(fs)|))
  {
    hide At, FormsText, StringFrom, FormsValue, FormsOk;
    fs := FormsFound(text, i + 1, []);
    assert [] + FormsValue(fs) == FormsValue(fs);
    AtSlice(text, i, i + 1);
    assert text[i..i + 1] == ['"' as nat];
    AtJoin(text, i, ['"' as nat], FormsText(fs) + ['"' as nat]);
  }

  lemma IntegerFound(double: (Text, nat) -> Lexed, text: Text, i: nat) returns (minus: bool, digits: Text)
    requires NoDoubles(double) && i <= |text| && NumberAt(double, text, i).Lexed?
    ensures IntegerOk(minus, digits) && At(text, i, SyntaxText(IntegerForm(minus, digits)))
    ensures NumberAt(double, text, i) ==
            Lexed(Value(Meaning(IntegerForm(minus, digits)).v), i + |SyntaxText(IntegerForm(minus, digits))|)
    ensures MayFollow(digits, Peek(text, i + |SyntaxText(IntegerForm(minus, digits))|))
  {
    hide At, DigitsValue, Fits, PlainDigits;
    minus := Peek(text, i) == '-' as nat;
    var s := if minus then i + 1 else i;
    var e := IntegerEnd(text, i).value;
    digits := text[s..e];
    assert double(text, i).Malformed?;
    IntegerParts(text, s, e);
    AtSlice(text, s, e);
    AtSlice(text, i, s);
    assert text[i..s] == if minus then ['-' as nat] else [];
    AtJoin(text, i, if minus then ['-' as nat] else [], digits);
    PlainAreDigits(digits);
    DigitsThere(text, s, digits, 0);
    FitsIs(minus, DigitsValue(digits, 0, |digits|, 0));
  }

  lemma PlainAreDigits(digits: Text)
    requires PlainDigits(digits)
    ensures AllDigits(digits)
  {
  }

  lemma IntegerParts(text: Text, s: nat, e: nat)
    requires s < |text| && IsDigit(text[s]) && e == (if text[s] == '0' as nat then s + 1 else DigitsEnd(text, s))
    ensures s < e <= |text| && PlainDigits(text[s..e])
  {
    DigitsEndDigits(text, s);
  }

  lemma {:induction false} DigitsEndDigits(text: Text, i: nat)
    requires i <= |text|
    ensures forall k :: i <= k < DigitsEnd(text, i) ==> IsDigit(text[k])
    decreases |text| - i
  {
    if IsDigit(Peek(text, i)) {
      DigitsEndDigits(text, i + 1);
    }
  }

  // ----- The tree behind an accepted text -----

  lemma ScalarFound(c: Settings, text: Text, i: nat) returns (t: Syntax)
    requires NoDoubles(c.double) && i <= |text| && ReaderOf(c).scalar(text, i).Lexed?
    ensures SyntaxOk(c.comments, c.trailingCommas, t) && (t.WordForm? || t.IntegerForm? || t.StringForm?) && At(text, i, SyntaxText(t))
    ensures Meaning(t).Leaf? && ReaderOf(c).scalar(text, i) == Lexed(Value(Meaning(t).v), i + |SyntaxText(t)|)
    ensures t.IntegerForm? ==> MayFollow(t.digits, Peek(text, i + |SyntaxText(t)|))
  {
    hide At, StringFrom, NumberAt, DigitsValue, FormsText, FormsValue, FormsOk, IntegerOk, MayFollow, NameText, Literal;
    ReaderIs(c, text, i);
    var ch := Peek(text, i);
    if ch == 'n' as nat {
      t := WordForm(Null);
      WordFound(text, i, NULL_TEXT, Null);
    } else if ch == 't' as nat {
      t := WordForm(Bool(true));
      WordFound(text, i, TRUE_TEXT, Bool(true));
    } else if ch == 'f' as nat {
      t := WordForm(Bool(false));
      WordFound(text, i, FALSE_TEXT, Bool(false));
    } else if ch == QUOTE {
      var fs := NameFound(text, i);
      t := StringForm(fs);
    } else {
      var minus, digits := IntegerFound(c.double, text, i);
      t := IntegerForm(minus, digits);
    }
  }

  lemma WordFound(text: Text, i: nat, word: Text, s: Scalar)
    requires Literal(text, i, word, s).Lexed?
    ensures At(text, i, word) && Literal(text, i, word, s) == Lexed(Value(s), i + |word|)
  {
  }

  lemma {:induction false} SyntaxFound(c: Settings, v: Json, text: Text, i: nat) returns (t: Syntax)
    requires SettingsOk(c) && NoDoubles(c.double) && Sound(ReaderOf(c)) && i <= |text| && ValueEnd(ReaderOf(c), v, text, i).Some?
    ensures SyntaxOk(c.comments, c.trailingCommas, t) && Meaning(t) == v && At(text, i, SyntaxText(t))
    ensures ValueEnd(ReaderOf(c), v, text, i) == Some(i + |SyntaxText(t)|)
    ensures t.IntegerForm? ==> MayFollow(t.digits, Peek(text, i + |SyntaxText(t)|))
    decreases v, 0
  {
    hide At, ReaderOf, SettingsOk, NoDoubles, ElementsEnd, MembersEnd, GapText, GapOk, Sound, MayFollow, IntegerOk, FormsOk;
    match v
    case Leaf(s) =>
      t := ScalarFound(c, text, i);
    case Array(es) =>
      t := ArrayFound(c, es, text, i);
    case Object(ms) =>
      t := ObjectFound(c, ms, text, i);
  }

  lemma PutTogether(text: Text, i: nat, a: Text, b: Text, rest: Text)
    requires At(text, i, a) && At(text, i + |a|, b) && At(text, i + |a| + |b|, rest)
    ensures At(text, i, a + (b + rest))
  {
    hide At;
    AtJoin(text, i + |a|, b, rest);
    AtJoin(text, i, a, b + rest);
  }

  lemma OneChar(text: Text, i: nat, c: nat)
    requires c != 0 && Peek(text, i) == c
    ensures i < |text| && At(text, i, [c])
  {
    assert text[i..i + 1] == [c];
  }

  lemma {:induction false} ArrayFound(c: Settings, es: seq<Json>, text: Text, i: nat) returns (t: Syntax)
    requires SettingsOk(c) && NoDoubles(c.double) && Sound(ReaderOf(c)) && i <= |text| && ValueEnd(ReaderOf(c), Array(es), text, i).Some?
    ensures t.ArrayForm? && SyntaxOk(c.comments, c.trailingCommas, t) && Meaning(t) == Array(es) && At(text, i, SyntaxText(t))
    ensures ValueEnd(ReaderOf(c), Array(es), text, i) == Some(i + |SyntaxText(t)|)
    decreases es, 2
  {
    hide At, ReaderOf, SettingsOk, NoDoubles, ElementsEnd, GapText, GapOk, Sound, ElementsText, ElementOk;
    var j := ReaderOf(c).skip(text, i + 1).value;
    OneChar(text, i, '[' as nat);
    if es == [] {
      OneChar(text, j, ']' as nat);
      var inner := InnerGapFound(c, text, i + 1);
      t := ArrayForm(inner, [], false);
      PutTogether(text, i, ['[' as nat], GapText(inner), [']' as nat]);
    } else {
      var children, trailing := ElementsFound(c, es, text, j);
      var inner := InnerGapFound(c, text, i + 1);
      t := ArrayForm(inner, children, trailing);
      PutTogether(text, i, ['[' as nat], GapText(inner), ElementsText(children, trailing));
    }
  }

  lemma {:induction false} ObjectFound(c: Settings, ms: seq<Member>, text: Text, i: nat) returns (t: Syntax)
    requires SettingsOk(c) && NoDoubles(c.double) && Sound(ReaderOf(c)) && i <= |text| && ValueEnd(ReaderOf(c), Object(ms), text, i).Some?
    ensures t.ObjectForm? && SyntaxOk(c.comments, c.trailingCommas, t) && Meaning(t) == Object(ms) && At(text, i, SyntaxText(t))
    ensures ValueEnd(ReaderOf(c), Object(ms), text, i) == Some(i + |SyntaxText(t)|)
    decreases ms, 3
  {
    hide At, ReaderOf, SettingsOk, NoDoubles, MembersEnd, GapText, GapOk, Sound, EntriesText, EntryOk;
    var j := ReaderOf(c).skip(text, i + 1).value;
    OneChar(text, i, '{' as nat);
    if ms == [] {
      OneChar(text, j, '}' as nat);
      var inner := InnerGapFound(c, text, i + 1);
      t := ObjectForm(inner, [], false);
      PutTogether(text, i, ['{' as nat], GapText(inner), ['}' as nat]);
    } else {
      var children, trailing := EntriesFound(c, ms, text, j);
      var inner := InnerGapFound(c, text, i + 1);
      t := ObjectForm(inner, children, trailing);
      PutTogether(text, i, ['{' as nat], GapText(inner), EntriesText(children, trailing));
    }
  }

  /** The closing bracket, with a comma and a gap before it where these are there. */
  lemma LastFound(c: Settings, text: Text, j: nat, closing: nat) returns (trailing: bool, next: Gap)
    requires Sound(ReaderOf(c)) && j <= |text| && (closing == ']' as nat || closing == '}' as nat)
    requires LastEnd(ReaderOf(c), text, j, closing).Some?
    ensures GapOk(c.comments, next) && (trailing ==> c.trailingCommas) && At(text, j, CloseText(trailing, next, closing))
    ensures LastEnd(ReaderOf(c), text, j, closing) == Some(j + |CloseText(trailing, next, closing)|)
    ensures Peek(text, j) == closing || Peek(text, j) == ',' as nat
  {
    hide At, ReaderOf, GapText, Sound;
    ReaderFlags(c);
    if Peek(text, j) == closing {
      trailing, next := false, [];
      OneChar(text, j, closing);
    } else {
      trailing := true;
      OneChar(text, j, ',' as nat);
      next := InnerGapFound(c, text, j + 1);
      OneChar(text, j + 1 + |GapText(next)|, closing);
      PutTogether(text, j, [',' as nat], GapText(next), [closing]);
    }
  }

  lemma {:induction false} ElementsFound(c: Settings, es: seq<Json>, text: Text, i: nat) returns (ts: seq<Element>, trailing: bool)
    requires SettingsOk(c) && NoDoubles(c.double) && Sound(ReaderOf(c)) && i <= |text| && es != []
    requires ElementsEnd(ReaderOf(c), es, text, i).Some?
    ensures ts != [] && (trailing ==> c.trailingCommas) && forall k :: 0 <= k < |ts| ==> ElementOk(c.comments, c.trailingCommas, ts[k])
    ensures Elements(ts) == es && At(text, i, ElementsText(ts, trailing))
    ensures ElementsEnd(ReaderOf(c), es, text, i) == Some(i + |ElementsText(ts, trailing)|)
    ensures Peek(text, i) != 0
    decreases es, 1
  {
    hide At, ReaderOf, SettingsOk, NoDoubles, ValueEnd, LastEnd, GapText, GapOk, Sound, SyntaxOk, Meaning, SyntaxText, CloseText, MayFollow,
         Elements, ElementsText;
    var e := ValueEnd(ReaderOf(c), es[0], text, i).value;
    var j := ReaderOf(c).skip(text, e).value;
    var first := SyntaxFound(c, es[0], text, i);
    NotAtEnd(c, es[0], text, i);
    if |es| == 1 {
      var next;
      trailing, next := LastFound(c, text, j, ']' as nat);
      var after := InnerGapFound(c, text, e);
      ts := [Element(first, after, next)];
      PutTogether(text, i, SyntaxText(first), GapText(after), CloseText(trailing, next, ']' as nat));
      ElementsStep(ts, trailing);
      NoElements();
    } else {
      var k := ReaderOf(c).skip(text, j + 1).value;
      var rest;
      rest, trailing := ElementsFound(c, es[1..], text, k);
      var after := InnerGapFound(c, text, e);
      var next := InnerGapFound(c, text, j + 1);
      OneChar(text, j, ',' as nat);
      ts := [Element(first, after, next)] + rest;
      assert ts[1..] == rest;
      PutTogether(text, j, [',' as nat], GapText(next), ElementsText(rest, trailing));
      PutTogether(text, i, SyntaxText(first), GapText(after), [',' as nat] + (GapText(next) + ElementsText(rest, trailing)));
      ElementsStep(ts, trailing);
    }
  }

  lemma NoElements()
    ensures Elements([]) == [] && Members([]) == []
  {
  }

  /** A value does not begin where the text ends. */
  lemma NotAtEnd(c: Settings, v: Json, text: Text, i: nat)
    requires Sound(ReaderOf(c)) && i <= |text| && ValueEnd(ReaderOf(c), v, text, i).Some?
    ensures Peek(text, i) != 0
  {
    hide ReaderOf, ElementsEnd, MembersEnd;
  }

  lemma {:induction false} EntryFound(c: Settings, m: Member, text: Text, i: nat) returns (t: Entry)
    requires SettingsOk(c) && NoDoubles(c.double) && Sound(ReaderOf(c)) && i <= |text| && MemberEnd(ReaderOf(c), m, text, i).Some?
    ensures FormsOk(t.name) && GapOk(c.comments, t.beforeColon) && GapOk(c.comments, t.afterColon) && t.after == t.next == []
    ensures SyntaxOk(c.comments, c.trailingCommas, t.value)
    ensures Member(FormsValue(t.name), Meaning(t.value)) == m && At(text, i, EntryText(t))
    ensures MemberEnd(ReaderOf(c), m, text, i) == Some(i + |EntryText(t)|) && Peek(text, i) == 0x22
    ensures t.value.IntegerForm? ==> MayFollow(t.value.digits, Peek(text, i + |EntryText(t)|))
    decreases m, 1
  {
    hide At, ReaderOf, SettingsOk, NoDoubles, ValueEnd, GapText, GapOk, Sound, SyntaxOk, Meaning, SyntaxText, MayFollow, NameText, FormsOk, FormsValue, StringFrom;
    ReaderIs(c, text, i);
    var name := NameFound(text, i);
    var a := i + |NameText(name)|;
    var b := ReaderOf(c).skip(text, a).value;
    var d := ReaderOf(c).skip(text, b + 1).value;
    OneChar(text, b, ':' as nat);
    var before := InnerGapFound(c, text, a);
    NotAtEnd(c, m.value, text, d);
    var behind := InnerGapFound(c, text, b + 1);
    var value := SyntaxFound(c, m.value, text, d);
    t := Entry(name, before, behind, value, [], []);
    PutTogether(text, b, [':' as nat], GapText(behind), SyntaxText(value));
    PutTogether(text, i, NameText(name), GapText(before), [':' as nat] + (GapText(behind) + SyntaxText(value)));
  }

  lemma {:induction false} EntriesFound(c: Settings, ms: seq<Member>, text: Text, i: nat) returns (ts: seq<Entry>, trailing: bool)
    requires SettingsOk(c) && NoDoubles(c.double) && Sound(ReaderOf(c)) && i <= |text| && ms != []
    requires MembersEnd(ReaderOf(c), ms, text, i).Some?
    ensures ts != [] && (trailing ==> c.trailingCommas) && forall k :: 0 <= k < |ts| ==> EntryOk(c.comments, c.trailingCommas, ts[k])
    ensures Members(ts) == ms && At(text, i, EntriesText(ts, trailing))
    ensures MembersEnd(ReaderOf(c), ms, text, i) == Some(i + |EntriesText(ts, trailing)|)
    ensures Peek(text, i) != 0
    decreases ms, 2
  {
    hide At, ReaderOf, SettingsOk, NoDoubles, MemberEnd, LastEnd, GapText, GapOk, Sound, SyntaxOk, Meaning, CloseText, MayFollow,
         Members, EntriesText, FormsOk, FormsValue, NameText, SyntaxText;
    var e := MemberEnd(ReaderOf(c), ms[0], text, i).value;
    var j := ReaderOf(c).skip(text, e).value;
    var found := EntryFound(c, ms[0], text, i);
    if |ms| == 1 {
      var next;
      trailing, next := LastFound(c, text, j, '}' as nat);
      var after := InnerGapFound(c, text, e);
      var first := found.(after := after, next := next);
      ts := [first];
      PutTogether(text, i, EntryText(first), GapText(after), CloseText(trailing, next, '}' as nat));
      EntriesStep(ts, trailing);
      NoElements();
    } else {
      var k := ReaderOf(c).skip(text, j + 1).value;
      var rest;
      rest, trailing := EntriesFound(c, ms[1..], text, k);
      var after := InnerGapFound(c, text, e);
      var next := InnerGapFound(c, text, j + 1);
      OneChar(text, j, ',' as nat);
      var first := found.(after := after, next := next);
      ts := [first] + rest;
      assert ts[1..] == rest;
      PutTogether(text, j, [',' as nat], GapText(next), EntriesText(rest, trailing));
      PutTogether(text, i, EntryText(first), GapText(after), [',' as nat] + (GapText(next) + EntriesText(rest, trailing)));
      EntriesStep(ts, trailing);
    }
  }

  lemma WholeFound(c: Settings, v: Json, text: Text) returns (d: Whole)
    requires SettingsOk(c) && NoDoubles(c.double) && Sound(ReaderOf(c)) && DocumentEnd(ReaderOf(c), v, text).Some?
    ensures WholeOk(c, d) && Meaning(d.root) == v && Spells(c, d, text, DocumentEnd(ReaderOf(c), v, text).value)
  {
    hide At, ReaderOf, SettingsOk, NoDoubles, ValueEnd, GapText, GapOk, Sound, SyntaxOk, Meaning, SyntaxText, MayFollow, TailText, LineBody, GapFrom, SkipAt;
    ReaderFlags(c);
    var a := ReaderOf(c).skip(text, 0).value;
    NotAtEnd(c, v, text, a);
    var before := InnerGapFound(c, text, 0);
    var root := SyntaxFound(c, v, text, a);
    var e := a + |SyntaxText(root)|;
    var after, tail := [], None;
    if !c.stopWhenDone {
      ReaderIs(c, text, e);
      after, tail := GapFound(c.comments, text, e);
      GapFromIs(c.comments, text, e, after, tail);
    } else {
      AtFits(text, a, SyntaxText(root));
      NoGap(c.comments, text, e);
      GapFromIs(c.comments, text, e, after, tail);
      NoTail(after, tail);
    }
    d := Whole(before, root, after, tail);
    AtJoin(text, e, GapText(after), TailText(tail));
    PutTogether(text, 0, GapText(before), SyntaxText(root), GapText(after) + TailText(tail));
    FromStart(text, WholeText(d));
  }

  lemma GapFromIs(comments: bool, text: Text, i: nat, g: Gap, tail: Option<Text>)
    requires GapFrom(comments, text, i, g, tail)
    ensures GapOk(comments, g) && At(text, i, GapText(g)) && At(text, i + |GapText(g)|, TailText(tail))
    ensures tail.Some? ==> comments && LineBody(tail.value)
  {
  }

  lemma FromStart(text: Text, t: Text)
    requires At(text, 0, t)
    ensures |t| <= |text| && text[..|t|] == t
  {
  }

  /**
   * A text is accepted exactly when it is well formed up to where it ends, and then it is reported as the events of what
   * it means: for every setting of the flags, and with every number that is not a 64-bit integer refused.
   */
  lemma AcceptedIsSyntax(c: Settings, text: Text, end: nat, events: seq<Event>)
    requires NoDoubles(c.double) && Agreeable(ReaderOf(c))
    ensures Sound(ReaderOf(c))
    ensures Document(ReaderOf(c), text) == Accepted(end, events) <==>
            exists d: Whole :: WholeOk(c, d) && Spells(c, d, text, end) && events == EventsOf(Meaning(d.root))
  {
    hide Document, DocumentEnd, WholeOk, Spells, Meaning, EventsOf;
    LexerIsSound(c.double, c.accepts, c.comments, c.trailingCommas, c.stopWhenDone);
    AcceptedIsSpelled(ReaderOf(c), text, end, events);
    if Document(ReaderOf(c), text) == Accepted(end, events) {
      var v: Json :| DocumentEnd(ReaderOf(c), v, text) == Some(end) && events == EventsOf(v);
      var d := WholeFound(c, v, text);
    }
    if d: Whole :| WholeOk(c, d) && Spells(c, d, text, end) && events == EventsOf(Meaning(d.root)) {
      SyntaxAccepted(c, d, text, end);
    }
  }
}
