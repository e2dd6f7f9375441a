/** The writers of writer.h and prettywriter.h: events in, text out. */
module JsonWriters {
  import opened Options
  import opened Powers
  import opened JsonEvents
  import opened JsonGrammar
  import opened JsonLexer
  import opened Encodings
  import opened Texts
  import opened IntegerText

  /** Writer, or PrettyWriter with its indentation and its option for arrays on one line. */
  datatype Format = Compact | Pretty(indentChar: nat, indentCharCount: nat, singleLineArray: bool)

  /** SetIndent takes white space only. */
  predicate FormatOk(f: Format) {
    f.Pretty? ==> IsSpace(f.indentChar)
  }

  // ----- Strings -----

  function HexDigit(h: nat): nat {
    if h < 10 then '0' as nat + h else 'A' as nat + (h - 10)
  }

  /** The table of escapes: 'u' for the four-digit form, 0 for none. */
  function EscapeOf(c: nat): nat {
    if c == QUOTE || c == BACKSLASH then c
    else if c == 0x08 then 'b' as nat
    else if c == 0x09 then 't' as nat
    else if c == 0x0A then 'n' as nat
    else if c == 0x0C then 'f' as nat
    else if c == 0x0D then 'r' as nat
    else if c < 0x20 then 'u' as nat
    else 0
  }

  function EscapedChar(c: nat): Text {
    var e := EscapeOf(c);
    if e == 0 then [c]
    else if e == 'u' as nat then [BACKSLASH, 'u' as nat, '0' as nat, '0' as nat, HexDigit(c / 16), HexDigit(c % 16)]
    else [BACKSLASH, e]
  }

  function EscapedText(s: Text): Text {
    if s == [] then [] else EscapedChar(s[0]) + EscapedText(s[1..])
  }

  function Quoted(s: Text): Text {
    [QUOTE] + (EscapedText(s) + [QUOTE])
  }

  /** Every byte comes back from its escaped form. */
  lemma CharBack(text: Text, i: nat, c: nat)
    requires At(text, i, EscapedChar(c)) && c < 256
    ensures i <= |text| && Peek(text, i) != QUOTE && CharAt(text, i) == Some(([c], i + |EscapedChar(c)|))
  {
    var t := EscapedChar(c);
    AtIndex(text, i, t, 0);
    if EscapeOf(c) != 0 {
      AtIndex(text, i, t, 1);
      if EscapeOf(c) == 'u' as nat {
        AtIndex(text, i, t, 2);
        AtIndex(text, i, t, 3);
        AtIndex(text, i, t, 4);
        AtIndex(text, i, t, 5);
        HexBack(text, i + 2, c);
      }
    }
  }

  lemma HexBack(text: Text, i: nat, c: nat)
    requires c < 256 && i + 4 <= |text|
    requires text[i] == text[i + 1] == '0' as nat && text[i + 2] == HexDigit(c / 16) && text[i + 3] == HexDigit(c % 16)
    ensures ParseHex4(text, i) == Some(c)
  {
    HexDigitBack(c / 16);
    HexDigitBack(c % 16);
  }

  lemma HexDigitBack(h: nat)
    requires h < 16
    ensures HexValue(HexDigit(h)) == Some(h)
  {
  }

  /** ParseStringToStream undoes WriteString, for every byte string. */
  lemma {:induction false} StringBack(text: Text, i: nat, s: Text, acc: Text)
    requires Bytes(s) && At(text, i, EscapedText(s) + [QUOTE])
    ensures i <= |text| && StringFrom(text, i, acc) == Some((acc + s, i + |EscapedText(s)| + 1))
    decreases |s|
  {
    hide At, EscapedChar, CharAt;
    if s == [] {
      assert EscapedText(s) + [QUOTE] == [QUOTE];
      AtIndex(text, i, [QUOTE], 0);
      assert acc + s == acc;
    } else {
      var c, rest := s[0], s[1..];
      assert EscapedText(s) + [QUOTE] == EscapedChar(c) + (EscapedText(rest) + [QUOTE]);
      AtConcat(text, i, EscapedChar(c), EscapedText(rest) + [QUOTE]);
      CharBack(text, i, c);
      StringBack(text, i + |EscapedChar(c)|, rest, acc + [c]);
      assert acc + [c] + rest == acc + s;
    }
  }

  lemma QuotedBack(text: Text, i: nat, s: Text)
    requires Bytes(s) && At(text, i, Quoted(s))
    ensures i < |text| && Peek(text, i) == QUOTE
    ensures StringFrom(text, i + 1, []) == Some((s, i + |Quoted(s)|))
  {
    hide At, EscapedText, StringFrom, Bytes;
    AtConcat(text, i, [QUOTE], EscapedText(s) + [QUOTE]);
    AtIndex(text, i, [QUOTE], 0);
    StringBack(text, i + 1, s, []);
    assert [] + s == s;
  }

  // ----- Integers -----

  lemma {:induction false} DigitsBack(text: Text, i: nat, n: nat)
    requires At(text, i, DecimalText(n))
    ensures forall k :: i <= k < i + |DecimalText(n)| ==> k < |text| && IsDigit(text[k])
    ensures DigitsValue(text, i, i + |DecimalText(n)|, 0) == n
    ensures n > 0 ==> Peek(text, i) != '0' as nat
    ensures n == 0 ==> DecimalText(n) == ['0' as nat]
  {
    hide At;
    if n < 10 {
      AtIndex(text, i, DecimalText(n), 0);
    } else {
      var front := DecimalText(n / 10);
      AtConcat(text, i, front, [Digit(n % 10)]);
      DigitsBack(text, i, n / 10);
      AtIndex(text, i + |front|, [Digit(n % 10)], 0);
      DigitsStep(text, i, i + |front|, 0);
    }
  }

  lemma {:induction false} DigitsEndAt(text: Text, i: nat, e: nat)
    requires i <= e <= |text| && !IsDigit(Peek(text, e)) && forall k :: i <= k < e ==> IsDigit(text[k])
    ensures DigitsEnd(text, i) == e
    decreases e - i
  {
    if i < e {
      DigitsEndAt(text, i + 1, e);
    }
  }

  /** What may follow a number: nothing that would continue it. */
  predicate EndsNumber(c: nat) {
    !IsDigit(c) && !GoesOn(c)
  }

  /** Printed integers are read back exactly. */
  lemma IntegerBack(double: (Text, nat) -> Lexed, text: Text, i: nat, v: int)
    requires -0x8000_0000_0000_0000 <= v < 0x1_0000_0000_0000_0000
    requires At(text, i, SignedText(v)) && EndsNumber(Peek(text, i + |SignedText(v)|))
    ensures i <= |text| && (IsDigit(Peek(text, i)) || Peek(text, i) == '-' as nat)
    ensures NumberAt(double, text, i) == Lexed(Value(Integer(v)), i + |SignedText(v)|)
  {
    hide At, DecimalText;
    var n: nat := if v < 0 then -v else v;
    var s := if v < 0 then i + 1 else i;
    if v < 0 {
      AtConcat(text, i, ['-' as nat], DecimalText(n));
      AtIndex(text, i, ['-' as nat], 0);
    }
    DigitsBack(text, s, n);
    var e := s + |DecimalText(n)|;
    AtFits(text, s, DecimalText(n));
    AtIndex(text, s, DecimalText(n), 0);
    if n > 0 {
      DigitsEndAt(text, s, e);
    }
  }

  // ----- What the writers put around values -----

  /** One open container: how many values it has so far, keys included, and of which kind it is. */
  datatype Level = Level(valueCount: nat, inArray: bool)

  function Indent(f: Format, depth: nat): Text {
    if f.Compact? then [] else seq(depth * f.indentCharCount, _ => f.indentChar)
  }

  function NewLine(f: Format, depth: nat): Text {
    ['\n' as nat] + Indent(f, depth)
  }

  /** White space in front of a value, behind the comma or the colon. */
  function Spacing(f: Format, level: Level, depth: nat): Text {
    if f.Compact? then []
    else if level.inArray then
      if !f.singleLineArray then NewLine(f, depth) else if level.valueCount > 0 then [' ' as nat] else []
    else if level.valueCount % 2 == 0 then NewLine(f, depth)
    else [' ' as nat]
  }

  function Mark(level: Level): Text {
    if level.valueCount == 0 then [] else if level.inArray || level.valueCount % 2 == 0 then [COMMA] else [COLON]
  }

  /** Prefix and PrettyPrefix: what goes in front of the next value of a container. */
  function Prefix(f: Format, level: Level, depth: nat): Text {
    Mark(level) + Spacing(f, level, depth)
  }

  /** What goes in front of a closing bracket, with `depth` containers still open around it. */
  function Ending(f: Format, level: Level, depth: nat): Text {
    if f.Compact? || level.valueCount == 0 || (level.inArray && f.singleLineArray) then [] else NewLine(f, depth)
  }

  function ScalarText(s: Scalar): Text {
    match s
    case Null => NULL_TEXT
    case Bool(b) => if b then TRUE_TEXT else FALSE_TEXT
    case String(t) => Quoted(t)
    case Integer(v) => SignedText(v)
    case Double(digits) => digits
  }

  /** The text of a value inside `depth` containers. */
  function PrintValue(f: Format, v: Json, depth: nat): Text
    decreases v, 0
  {
    match v
    case Leaf(s) => ScalarText(s)
    case Array(es) => [LEFT_BRACKET] + PrintElements(f, es, 0, depth + 1)
    case Object(ms) => [LEFT_CURLY] + PrintMembers(f, ms, 0, depth + 1)
  }

  /** The elements from number `k` on and the closing bracket. */
  function PrintElements(f: Format, es: seq<Json>, k: nat, depth: nat): Text
    requires depth > 0
    decreases es, 1
  {
    if es == [] then Ending(f, Level(k, true), depth - 1) + [RIGHT_BRACKET]
    else Prefix(f, Level(k, true), depth) + (PrintValue(f, es[0], depth) + PrintElements(f, es[1..], k + 1, depth))
  }

  function PrintMembers(f: Format, ms: seq<Member>, k: nat, depth: nat): Text
    requires depth > 0
    decreases ms, 1
  {
    if ms == [] then Ending(f, Level(2 * k, false), depth - 1) + [RIGHT_CURLY]
    else Prefix(f, Level(2 * k, false), depth) + (PrintMember(f, ms[0], k, depth) + PrintMembers(f, ms[1..], k + 1, depth))
  }

  function PrintMember(f: Format, m: Member, k: nat, depth: nat): Text
    decreases m, 1
  {
    Quoted(m.name) + (Prefix(f, Level(2 * k + 1, false), depth) + PrintValue(f, m.value, depth))
  }

  // ----- The writer as an automaton -----

  /** The output stream, the open containers, and whether there has been a root. */
  datatype Output = Output(os: Text, levels: seq<Level>, hasRoot: bool)

  /** The checks of Prefix: one root only, and names at the even places of an object. */
  predicate MayPut(w: Output, isString: bool) {
    if w.levels == [] then !w.hasRoot
    else
      var top := w.levels[|w.levels| - 1];
      !top.inArray && top.valueCount % 2 == 0 ==> isString
  }

  function Prefixed(f: Format, w: Output): Output {
    if w.levels == [] then w.(hasRoot := true)
    else
      var n := |w.levels|;
      var top := w.levels[n - 1];
      w.(os := w.os + Prefix(f, top, n), levels := w.levels[n - 1 := top.(valueCount := top.valueCount + 1)])
  }

  function PutText(f: Format, w: Output, t: Text): Output {
    var p := Prefixed(f, w);
    p.(os := p.os + t)
  }

  function Begin(f: Format, w: Output, c: nat, inArray: bool): Output {
    var p := PutText(f, w, [c]);
    p.(levels := p.levels + [Level(0, inArray)])
  }

  function End(f: Format, w: Output, c: nat): Output
    requires w.levels != []
  {
    var n := |w.levels|;
    w.(os := w.os + (Ending(f, w.levels[n - 1], n - 1) + [c]), levels := w.levels[..n - 1])
  }

  /** What one event does to the output. */
  function Write(f: Format, w: Output, e: Event): Output {
    match e
    case StartObject => Begin(f, w, LEFT_CURLY, false)
    case Key(s) => PutText(f, w, Quoted(s))
    case EndObject(_) => if w.levels == [] then w else End(f, w, RIGHT_CURLY)
    case StartArray => Begin(f, w, LEFT_BRACKET, true)
    case EndArray(_) => if w.levels == [] then w else End(f, w, RIGHT_BRACKET)
    case Value(s) => PutText(f, w, ScalarText(s))
  }

  function WriteAll(f: Format, w: Output, events: seq<Event>): Output
    decreases |events|
  {
    if events == [] then w else WriteAll(f, Write(f, w, events[0]), events[1..])
  }

  lemma {:induction false} WriteConcat(f: Format, w: Output, a: seq<Event>, b: seq<Event>)
    ensures WriteAll(f, w, a + b) == WriteAll(f, WriteAll(f, w, a), b)
    decreases |a|
  {
    if a == [] {
      assert a + b == b;
    } else {
      assert (a + b)[0] == a[0] && (a + b)[1..] == a[1..] + b;
      WriteConcat(f, Write(f, w, a[0]), a[1..], b);
    }
  }

  lemma WriteOne(f: Format, w: Output, e: Event)
    ensures WriteAll(f, w, [e]) == Write(f, w, e)
  {
    assert [e][1..] == [];
  }

  /** Writing the events of a value puts its text, and counts one value in the container around it. */
  lemma {:induction false} EventsPrint(f: Format, w: Output, v: Json)
    ensures WriteAll(f, w, EventsOf(v)) == PutText(f, w, PrintValue(f, v, |w.levels|))
    decreases v, 0
  {
    match v
    case Leaf(s) => WriteOne(f, w, Value(s));
    case Array(es) => ArrayPrints(f, w, es);
    case Object(ms) => ObjectPrints(f, w, ms);
  }

  lemma {:induction false} ArrayPrints(f: Format, w: Output, es: seq<Json>)
    ensures WriteAll(f, w, EventsOf(Array(es))) == PutText(f, w, [LEFT_BRACKET] + PrintElements(f, es, 0, |w.levels| + 1))
    decreases es, 2
  {
    hide Prefixed, PrintElements, ElementEvents, WriteAll;
    var p, b := Prefixed(f, w), Begin(f, w, LEFT_BRACKET, true);
    WriteConcat(f, w, [StartArray], ElementEvents(es) + [EndArray(|es|)]);
    assert EventsOf(Array(es)) == [StartArray] + (ElementEvents(es) + [EndArray(|es|)]);
    WriteOne(f, w, StartArray);
    PrefixedDepth(f, w);
    ElementsPrint(f, b, es, 0, |es|);
    Assoc(p.os, [LEFT_BRACKET], PrintElements(f, es, 0, |w.levels| + 1));
    assert b.levels[..|b.levels| - 1] == p.levels;
  }

  lemma {:induction false} ObjectPrints(f: Format, w: Output, ms: seq<Member>)
    ensures WriteAll(f, w, EventsOf(Object(ms))) == PutText(f, w, [LEFT_CURLY] + PrintMembers(f, ms, 0, |w.levels| + 1))
    decreases ms, 2
  {
    hide Prefixed, PrintMembers, MemberEvents, WriteAll;
    var p, b := Prefixed(f, w), Begin(f, w, LEFT_CURLY, false);
    WriteConcat(f, w, [StartObject], MemberEvents(ms) + [EndObject(|ms|)]);
    assert EventsOf(Object(ms)) == [StartObject] + (MemberEvents(ms) + [EndObject(|ms|)]);
    WriteOne(f, w, StartObject);
    PrefixedDepth(f, w);
    MembersPrint(f, b, ms, 0, |ms|);
    Assoc(p.os, [LEFT_CURLY], PrintMembers(f, ms, 0, |w.levels| + 1));
    assert b.levels[..|b.levels| - 1] == p.levels;
  }

  lemma PrefixedDepth(f: Format, w: Output)
    ensures |Prefixed(f, w).levels| == |w.levels|
  {
  }

  lemma Assoc(a: Text, b: Text, c: Text)
    ensures a + b + c == a + (b + c)
  {
  }

  lemma {:induction false} ElementsPrint(f: Format, w: Output, es: seq<Json>, k: nat, n: nat)
    requires w.levels != [] && w.levels[|w.levels| - 1] == Level(k, true)
    ensures WriteAll(f, w, ElementEvents(es) + [EndArray(n)]) ==
            w.(os := w.os + PrintElements(f, es, k, |w.levels|), levels := w.levels[..|w.levels| - 1])
    decreases es, 1
  {
    hide Prefix, Ending, EventsOf, PrintValue;
    var d := |w.levels|;
    if es == [] {
      assert ElementEvents(es) + [EndArray(n)] == [EndArray(n)];
      WriteOne(f, w, EndArray(n));
    } else {
      var next := PutText(f, w, PrintValue(f, es[0], d));
      assert ElementEvents(es) + [EndArray(n)] == EventsOf(es[0]) + (ElementEvents(es[1..]) + [EndArray(n)]);
      WriteConcat(f, w, EventsOf(es[0]), ElementEvents(es[1..]) + [EndArray(n)]);
      EventsPrint(f, w, es[0]);
      ElementsPrint(f, next, es[1..], k + 1, n);
      assert next.levels[..d - 1] == w.levels[..d - 1];
      Assoc4(w.os, Prefix(f, Level(k, true), d), PrintValue(f, es[0], d), PrintElements(f, es[1..], k + 1, d));
    }
  }

  lemma Assoc4(a: Text, b: Text, c: Text, d: Text)
    ensures a + b + c + d == a + (b + (c + d))
  {
  }

  lemma {:induction false} MembersPrint(f: Format, w: Output, ms: seq<Member>, k: nat, n: nat)
    requires w.levels != [] && w.levels[|w.levels| - 1] == Level(2 * k, false)
    ensures WriteAll(f, w, MemberEvents(ms) + [EndObject(n)]) ==
            w.(os := w.os + PrintMembers(f, ms, k, |w.levels|), levels := w.levels[..|w.levels| - 1])
    decreases ms, 1
  {
    hide Prefix, Ending, EventsOf, PrintValue, Quoted;
    var d := |w.levels|;
    if ms == [] {
      assert MemberEvents(ms) + [EndObject(n)] == [EndObject(n)];
      WriteOne(f, w, EndObject(n));
    } else {
      var rest := MemberEvents(ms[1..]) + [EndObject(n)];
      var next := w.(os := w.os + (Prefix(f, Level(2 * k, false), d) + PrintMember(f, ms[0], k, d)),
                     levels := w.levels[d - 1 := Level(2 * k + 2, false)]);
      assert MemberEvents(ms) + [EndObject(n)] == OfMember(ms[0]) + rest;
      WriteConcat(f, w, OfMember(ms[0]), rest);
      MemberPrints(f, w, ms[0], k);
      MembersPrint(f, next, ms[1..], k + 1, n);
      assert next.levels[..d - 1] == w.levels[..d - 1];
      Assoc(w.os, Prefix(f, Level(2 * k, false), d) + PrintMember(f, ms[0], k, d), PrintMembers(f, ms[1..], k + 1, d));
      Assoc(Prefix(f, Level(2 * k, false), d), PrintMember(f, ms[0], k, d), PrintMembers(f, ms[1..], k + 1, d));
    }
  }

  lemma {:induction false} MemberPrints(f: Format, w: Output, m: Member, k: nat)
    requires w.levels != [] && w.levels[|w.levels| - 1] == Level(2 * k, false)
    ensures var d := |w.levels|;
            WriteAll(f, w, OfMember(m)) ==
            w.(os := w.os + (Prefix(f, Level(2 * k, false), d) + PrintMember(f, m, k, d)),
               levels := w.levels[d - 1 := Level(2 * k + 2, false)])
    decreases m, 1
  {
    hide Prefix, EventsOf, PrintValue, Quoted;
    var d := |w.levels|;
    var key := PutText(f, w, Quoted(m.name));
    WriteConcat(f, w, [Key(m.name)], EventsOf(m.value));
    WriteOne(f, w, Key(m.name));
    EventsPrint(f, key, m.value);
    assert w.levels[d - 1 := Level(2 * k + 1, false)][d - 1 := Level(2 * k + 2, false)] == w.levels[d - 1 := Level(2 * k + 2, false)];
    Assoc4(w.os, Prefix(f, Level(2 * k, false), d), Quoted(m.name), Prefix(f, Level(2 * k + 1, false), d));
    Assoc5(w.os, Prefix(f, Level(2 * k, false), d), Quoted(m.name), Prefix(f, Level(2 * k + 1, false), d), PrintValue(f, m.value, d));
  }

  lemma Assoc5(a: Text, b: Text, c: Text, d: Text, e: Text)
    ensures a + b + c + d + e == a + (b + (c + (d + e)))
  {
  }

  // ----- Reading the text back -----

  /** What the writers can write and the reader reports exactly: no doubles, 64-bit integers, byte strings. */
  predicate WritableScalar(s: Scalar) {
    match s
    case String(t) => Bytes(t)
    case Integer(v) => -0x8000_0000_0000_0000 <= v < 0x1_0000_0000_0000_0000
    case Double(_) => false
    case _ => true
  }

  predicate Writable(v: Json) {
    match v
    case Leaf(s) => WritableScalar(s)
    case Array(es) => forall i :: 0 <= i < |es| ==> Writable(es[i])
    case Object(ms) => forall i :: 0 <= i < |ms| ==> Bytes(ms[i].name) && Writable(ms[i].value)
  }

  /** A reader with these scanners, whatever its flags and its handler. */
  datatype Settings = Settings(double: (Text, nat) -> Lexed, accepts: (seq<Event>, Event) -> bool,
                               comments: bool, trailingCommas: bool, stopWhenDone: bool)

  function ReaderOf(c: Settings): Reader {
    JsonReader(c.double, c.accepts, c.comments, c.trailingCommas, c.stopWhenDone)
  }

  ghost predicate SettingsOk(c: Settings) {
    DoublesOk(c.double) && Sound(ReaderOf(c))
  }

  lemma ReaderIs(c: Settings, text: Text, i: nat)
    ensures ReaderOf(c).skip(text, i) == SkipAt(c.comments, text, i)
    ensures ReaderOf(c).key(text, i) == KeyAt(text, i)
    ensures ReaderOf(c).scalar(text, i) == ScalarAt(c.double, text, i)
  {
  }

  predicate Spaces(g: Text) {
    forall i :: 0 <= i < |g| ==> IsSpace(g[i])
  }

  lemma {:induction false} SpacesSkipped(text: Text, i: nat, g: Text)
    requires At(text, i, g) && Spaces(g) && !IsSpace(Peek(text, i + |g|))
    ensures i <= |text| && SkipWhitespace(text, i) == i + |g|
    decreases |g|
  {
    AtFits(text, i, g);
    if g != [] {
      AtIndex(text, i, g, 0);
      assert g == [g[0]] + g[1..];
      AtConcat(text, i, [g[0]], g[1..]);
      SpacesSkipped(text, i + 1, g[1..]);
    }
  }

  /** A character that ends white space for the reader, comments or not. */
  predicate Solid(c: nat) {
    !IsSpace(c) && c != '/' as nat
  }

  lemma GapSkipped(c: Settings, text: Text, i: nat, g: Text)
    requires At(text, i, g) && Spaces(g) && Solid(Peek(text, i + |g|))
    ensures i + |g| <= |text| && ReaderOf(c).skip(text, i) == Some(i + |g|)
  {
    AtFits(text, i, g);
    SpacesSkipped(text, i, g);
    ReaderIs(c, text, i);
  }

  lemma NothingSkipped(c: Settings, text: Text, i: nat)
    requires i <= |text| && Solid(Peek(text, i))
    ensures ReaderOf(c).skip(text, i) == Some(i)
  {
    assert text[i..i] == [];
    GapSkipped(c, text, i, []);
  }

  lemma GapsAreSpaces(f: Format, level: Level, depth: nat)
    requires FormatOk(f)
    ensures Spaces(Spacing(f, level, depth)) && Spaces(Ending(f, level, depth))
  {
  }

  lemma ScalarBack(c: Settings, text: Text, i: nat, s: Scalar)
    requires WritableScalar(s) && At(text, i, ScalarText(s)) && EndsNumber(Peek(text, i + |ScalarText(s)|))
    ensures ReaderOf(c).scalar(text, i) == Lexed(Value(s), i + |ScalarText(s)|)
    ensures Solid(Peek(text, i)) && Peek(text, i) != LEFT_BRACKET && Peek(text, i) != LEFT_CURLY && !Structural(Peek(text, i))
  {
    hide StringFrom, NumberAt, SignedText, Quoted;
    ReaderIs(c, text, i);
    match s
    case Null => AtIndex(text, i, NULL_TEXT, 0);
    case Bool(b) => AtIndex(text, i, if b then TRUE_TEXT else FALSE_TEXT, 0);
    case String(t) => QuotedBack(text, i, t);
    case Integer(v) => IntegerBack(c.double, text, i, v);
  }

  // One step of the definitions of spelling and printing at a time.

  lemma LeafEnd(r: Reader, s: Scalar, text: Text, i: nat, e: nat)
    requires Sound(r) && i <= |text| && Peek(text, i) != LEFT_BRACKET && Peek(text, i) != LEFT_CURLY
    requires r.scalar(text, i) == Lexed(Value(s), e)
    ensures ValueEnd(r, Leaf(s), text, i) == Some(e)
  {
  }

  lemma ArrayEnd(r: Reader, es: seq<Json>, text: Text, i: nat, j: nat, e: nat)
    requires Sound(r) && i < |text| && Peek(text, i) == LEFT_BRACKET && r.skip(text, i + 1) == Some(j)
    requires if es == [] then Peek(text, j) == RIGHT_BRACKET && e == j + 1 else ElementsEnd(r, es, text, j) == Some(e)
    ensures ValueEnd(r, Array(es), text, i) == Some(e)
  {
    hide ElementsEnd;
  }

  lemma ObjectEnd(r: Reader, ms: seq<Member>, text: Text, i: nat, j: nat, e: nat)
    requires Sound(r) && i < |text| && Peek(text, i) == LEFT_CURLY && r.skip(text, i + 1) == Some(j)
    requires if ms == [] then Peek(text, j) == RIGHT_CURLY && e == j + 1 else MembersEnd(r, ms, text, j) == Some(e)
    ensures ValueEnd(r, Object(ms), text, i) == Some(e)
  {
    hide MembersEnd;
  }

  lemma ElementsEndStep(r: Reader, es: seq<Json>, text: Text, i: nat, e: nat, j: nat, end: nat)
    requires Sound(r) && i <= |text| && es != [] && ValueEnd(r, es[0], text, i) == Some(e) && r.skip(text, e) == Some(j)
    requires |es| == 1 ==> j < |text| && Peek(text, j) == RIGHT_BRACKET && end == j + 1
    requires |es| > 1 ==> j < |text| && Peek(text, j) == COMMA && r.skip(text, j + 1).Some?
    requires |es| > 1 ==> ElementsEnd(r, es[1..], text, r.skip(text, j + 1).value) == Some(end)
    ensures ElementsEnd(r, es, text, i) == Some(end)
  {
    hide ValueEnd;
  }

  lemma MemberEndStep(r: Reader, m: Member, text: Text, i: nat, e: nat, j: nat, start: nat, end: nat)
    requires Sound(r) && i < |text| && Peek(text, i) == QUOTE && r.key(text, i) == Lexed(Key(m.name), e)
    requires r.skip(text, e) == Some(j) && j < |text| && Peek(text, j) == COLON && r.skip(text, j + 1) == Some(start)
    requires ValueEnd(r, m.value, text, start) == Some(end)
    ensures MemberEnd(r, m, text, i) == Some(end)
  {
    hide ValueEnd;
  }

  lemma ColonPrefix(f: Format, k: nat, depth: nat)
    ensures Prefix(f, Level(2 * k + 1, false), depth) == [COLON] + Spacing(f, Level(2 * k + 1, false), depth)
  {
    hide Spacing;
  }

  lemma MembersEndStep(r: Reader, ms: seq<Member>, text: Text, i: nat, e: nat, j: nat, end: nat)
    requires Sound(r) && i <= |text| && ms != [] && MemberEnd(r, ms[0], text, i) == Some(e) && r.skip(text, e) == Some(j)
    requires |ms| == 1 ==> j < |text| && Peek(text, j) == RIGHT_CURLY && end == j + 1
    requires |ms| > 1 ==> j < |text| && Peek(text, j) == COMMA && r.skip(text, j + 1).Some?
    requires |ms| > 1 ==> MembersEnd(r, ms[1..], text, r.skip(text, j + 1).value) == Some(end)
    ensures MembersEnd(r, ms, text, i) == Some(end)
  {
    hide MemberEnd;
  }

  /** What follows an element: a comma and the next one, or the end of the array. */
  lemma RestOfElements(f: Format, es: seq<Json>, k: nat, depth: nat)
    requires depth > 0 && es != []
    ensures var rest := PrintElements(f, es[1..], k + 1, depth);
            rest == if |es| == 1 then Ending(f, Level(k + 1, true), depth - 1) + [RIGHT_BRACKET]
                    else [COMMA] + (Spacing(f, Level(k + 1, true), depth) +
                                    (PrintValue(f, es[1], depth) + PrintElements(f, es[1..][1..], k + 2, depth)))
  {
    hide PrintValue, Spacing, Ending;
    if |es| > 1 {
      Assoc([COMMA], Spacing(f, Level(k + 1, true), depth), PrintValue(f, es[1], depth) + PrintElements(f, es[1..][1..], k + 2, depth));
    }
  }

  lemma RestOfMembers(f: Format, ms: seq<Member>, k: nat, depth: nat)
    requires depth > 0 && ms != []
    ensures var rest := PrintMembers(f, ms[1..], k + 1, depth);
            rest == if |ms| == 1 then Ending(f, Level(2 * (k + 1), false), depth - 1) + [RIGHT_CURLY]
                    else [COMMA] + (Spacing(f, Level(2 * (k + 1), false), depth) +
                                    (PrintMember(f, ms[1], k + 1, depth) + PrintMembers(f, ms[1..][1..], k + 2, depth)))
  {
    hide PrintMember, Spacing, Ending;
    if |ms| > 1 {
      Assoc([COMMA], Spacing(f, Level(2 * (k + 1), false), depth), PrintMember(f, ms[1], k + 1, depth) + PrintMembers(f, ms[1..][1..], k + 2, depth));
    }
  }

  lemma {:induction false} PrintIsSpelled(c: Settings, f: Format, v: Json, text: Text, i: nat, depth: nat)
    requires SettingsOk(c) && FormatOk(f) && Writable(v)
    requires At(text, i, PrintValue(f, v, depth)) && EndsNumber(Peek(text, i + |PrintValue(f, v, depth)|))
    ensures i <= |text| && ValueEnd(ReaderOf(c), v, text, i) == Some(i + |PrintValue(f, v, depth)|)
    ensures Solid(Peek(text, i)) && !Structural(Peek(text, i))
    decreases v, 0
  {
    hide At, ReaderOf, SettingsOk, PrintElements, PrintMembers, ScalarText, ValueEnd, ElementsEnd, MembersEnd, WritableScalar, Sound, FormatOk;
    AtFits(text, i, PrintValue(f, v, depth));
    SettingsSound(c);
    var e := i + |PrintValue(f, v, depth)|;
    match v
    case Leaf(s) =>
      ScalarBack(c, text, i, s);
      LeafEnd(ReaderOf(c), s, text, i, e);
    case Array(es) =>
      AtConcat(text, i, [LEFT_BRACKET], PrintElements(f, es, 0, depth + 1));
      AtIndex(text, i, [LEFT_BRACKET], 0);
      ArraySpelled(c, f, es, text, i + 1, depth + 1);
      ArrayEnd(ReaderOf(c), es, text, i, ReaderOf(c).skip(text, i + 1).value, e);
    case Object(ms) =>
      AtConcat(text, i, [LEFT_CURLY], PrintMembers(f, ms, 0, depth + 1));
      AtIndex(text, i, [LEFT_CURLY], 0);
      ObjectSpelled(c, f, ms, text, i + 1, depth + 1);
      ObjectEnd(ReaderOf(c), ms, text, i, ReaderOf(c).skip(text, i + 1).value, e);
  }

  lemma SettingsSound(c: Settings)
    requires SettingsOk(c)
    ensures Sound(ReaderOf(c))
  {
  }

  /** The end of a container: its closing bracket behind white space, or at once. */
  lemma ClosingBack(c: Settings, f: Format, level: Level, text: Text, i: nat, depth: nat, closing: nat)
    requires SettingsOk(c) && FormatOk(f) && (closing == RIGHT_BRACKET || closing == RIGHT_CURLY)
    requires At(text, i, Ending(f, level, depth) + [closing])
    ensures var e := i + |Ending(f, level, depth)|;
            && ReaderOf(c).skip(text, i) == Some(e) && e < |text| && Peek(text, e) == closing
            && EndsNumber(Peek(text, i))
  {
    hide At, ReaderOf, SettingsOk, Sound, FormatOk;
    var g := Ending(f, level, depth);
    AtConcat(text, i, g, [closing]);
    AtIndex(text, i + |g|, [closing], 0);
    GapsAreSpaces(f, level, depth);
    GapSkipped(c, text, i, g);
    if g != [] {
      AtIndex(text, i, g, 0);
    }
  }

  /** The elements behind an opening bracket. */
  lemma {:induction false} ArraySpelled(c: Settings, f: Format, es: seq<Json>, text: Text, i: nat, depth: nat)
    requires SettingsOk(c) && FormatOk(f) && depth > 0 && At(text, i, PrintElements(f, es, 0, depth))
    requires forall k :: 0 <= k < |es| ==> Writable(es[k])
    ensures Sound(ReaderOf(c)) && i <= |text| && ReaderOf(c).skip(text, i).Some?
    ensures var j := ReaderOf(c).skip(text, i).value;
            && j <= |text|
            && (es == [] ==> Peek(text, j) == RIGHT_BRACKET && j + 1 == i + |PrintElements(f, es, 0, depth)|)
            && (es != [] ==> ElementsEnd(ReaderOf(c), es, text, j) == Some(i + |PrintElements(f, es, 0, depth)|))
    decreases es, 2
  {
    hide At, ReaderOf, SettingsOk, PrintValue, Ending, ElementsEnd, Spacing, Writable, Sound, FormatOk;
    AtFits(text, i, PrintElements(f, es, 0, depth));
    SettingsSound(c);
    if es == [] {
      ClosingBack(c, f, Level(0, true), text, i, depth - 1, RIGHT_BRACKET);
    } else {
      var g := Spacing(f, Level(0, true), depth);
      var rest := PrintValue(f, es[0], depth) + PrintElements(f, es[1..], 1, depth);
      assert Prefix(f, Level(0, true), depth) == g;
      AtConcat(text, i, g, rest);
      GapsAreSpaces(f, Level(0, true), depth);
      ElementsSpelled(c, f, es, 0, text, i + |g|, depth);
      GapSkipped(c, text, i, g);
    }
  }

  /** From the beginning of an element on. */
  lemma {:induction false} ElementsSpelled(c: Settings, f: Format, es: seq<Json>, k: nat, text: Text, i: nat, depth: nat)
    requires SettingsOk(c) && FormatOk(f) && depth > 0 && es != []
    requires At(text, i, PrintValue(f, es[0], depth) + PrintElements(f, es[1..], k + 1, depth))
    requires forall l :: 0 <= l < |es| ==> Writable(es[l])
    ensures Sound(ReaderOf(c)) && i <= |text|
    ensures ElementsEnd(ReaderOf(c), es, text, i) ==
            Some(i + |PrintValue(f, es[0], depth)| + |PrintElements(f, es[1..], k + 1, depth)|)
    ensures Solid(Peek(text, i)) && !Structural(Peek(text, i))
    decreases es, 1
  {
    hide At, ReaderOf, SettingsOk, PrintValue, PrintElements, Ending, Spacing, ValueEnd, ElementsEnd, Writable, Sound, FormatOk;
    SettingsSound(c);
    var first, rest := PrintValue(f, es[0], depth), PrintElements(f, es[1..], k + 1, depth);
    AtConcat(text, i, first, rest);
    RestOfElements(f, es, k, depth);
    var e := i + |first|;
    if |es| == 1 {
      ClosingBack(c, f, Level(k + 1, true), text, e, depth - 1, RIGHT_BRACKET);
      PrintIsSpelled(c, f, es[0], text, i, depth);
      ElementsEndStep(ReaderOf(c), es, text, i, e, ReaderOf(c).skip(text, e).value, e + |rest|);
    } else {
      var g := Spacing(f, Level(k + 1, true), depth);
      var more := PrintValue(f, es[1], depth) + PrintElements(f, es[1..][1..], k + 2, depth);
      CommaBack(c, text, e, g, more);
      PrintIsSpelled(c, f, es[0], text, i, depth);
      GapsAreSpaces(f, Level(k + 1, true), depth);
      ElementsSpelled(c, f, es[1..], k + 1, text, e + 1 + |g|, depth);
      GapSkipped(c, text, e + 1, g);
      ElementsEndStep(ReaderOf(c), es, text, i, e, e, e + |rest|);
    }
  }

  /** A comma, white space and more text. */
  lemma CommaBack(c: Settings, text: Text, e: nat, g: Text, more: Text)
    requires At(text, e, [COMMA] + (g + more))
    ensures e < |text| && Peek(text, e) == COMMA && EndsNumber(Peek(text, e)) && ReaderOf(c).skip(text, e) == Some(e)
    ensures At(text, e + 1, g) && At(text, e + 1 + |g|, more)
  {
    hide At, ReaderOf;
    AtConcat(text, e, [COMMA], g + more);
    AtConcat(text, e + 1, g, more);
    AtIndex(text, e, [COMMA], 0);
    NothingSkipped(c, text, e);
  }

  lemma {:induction false} ObjectSpelled(c: Settings, f: Format, ms: seq<Member>, text: Text, i: nat, depth: nat)
    requires SettingsOk(c) && FormatOk(f) && depth > 0 && At(text, i, PrintMembers(f, ms, 0, depth))
    requires forall k :: 0 <= k < |ms| ==> Bytes(ms[k].name) && Writable(ms[k].value)
    ensures Sound(ReaderOf(c)) && i <= |text| && ReaderOf(c).skip(text, i).Some?
    ensures var j := ReaderOf(c).skip(text, i).value;
            && j <= |text|
            && (ms == [] ==> Peek(text, j) == RIGHT_CURLY && j + 1 == i + |PrintMembers(f, ms, 0, depth)|)
            && (ms != [] ==> MembersEnd(ReaderOf(c), ms, text, j) == Some(i + |PrintMembers(f, ms, 0, depth)|))
    decreases ms, 3
  {
    hide At, ReaderOf, SettingsOk, PrintMember, Ending, MembersEnd, Spacing, Writable, Bytes, Sound, FormatOk;
    AtFits(text, i, PrintMembers(f, ms, 0, depth));
    SettingsSound(c);
    if ms == [] {
      ClosingBack(c, f, Level(0, false), text, i, depth - 1, RIGHT_CURLY);
    } else {
      var g := Spacing(f, Level(0, false), depth);
      var rest := PrintMember(f, ms[0], 0, depth) + PrintMembers(f, ms[1..], 1, depth);
      assert Prefix(f, Level(0, false), depth) == g;
      AtConcat(text, i, g, rest);
      GapsAreSpaces(f, Level(0, false), depth);
      MembersSpelled(c, f, ms, 0, text, i + |g|, depth);
      GapSkipped(c, text, i, g);
    }
  }

  lemma {:induction false} MembersSpelled(c: Settings, f: Format, ms: seq<Member>, k: nat, text: Text, i: nat, depth: nat)
    requires SettingsOk(c) && FormatOk(f) && depth > 0 && ms != []
    requires At(text, i, PrintMember(f, ms[0], k, depth) + PrintMembers(f, ms[1..], k + 1, depth))
    requires forall l :: 0 <= l < |ms| ==> Bytes(ms[l].name) && Writable(ms[l].value)
    ensures Sound(ReaderOf(c)) && i <= |text|
    ensures MembersEnd(ReaderOf(c), ms, text, i) ==
            Some(i + |PrintMember(f, ms[0], k, depth)| + |PrintMembers(f, ms[1..], k + 1, depth)|)
    ensures Peek(text, i) == QUOTE
    decreases ms, 2
  {
    hide At, ReaderOf, SettingsOk, PrintMember, PrintMembers, Ending, Spacing, MemberEnd, MembersEnd, Writable, Bytes, Sound, FormatOk;
    SettingsSound(c);
    var first, rest := PrintMember(f, ms[0], k, depth), PrintMembers(f, ms[1..], k + 1, depth);
    AtConcat(text, i, first, rest);
    RestOfMembers(f, ms, k, depth);
    var e := i + |first|;
    if |ms| == 1 {
      ClosingBack(c, f, Level(2 * (k + 1), false), text, e, depth - 1, RIGHT_CURLY);
      MemberSpelled(c, f, ms[0], k, text, i, depth);
      MembersEndStep(ReaderOf(c), ms, text, i, e, ReaderOf(c).skip(text, e).value, e + |rest|);
    } else {
      var g := Spacing(f, Level(2 * (k + 1), false), depth);
      var more := PrintMember(f, ms[1], k + 1, depth) + PrintMembers(f, ms[1..][1..], k + 2, depth);
      CommaBack(c, text, e, g, more);
      MemberSpelled(c, f, ms[0], k, text, i, depth);
      GapsAreSpaces(f, Level(2 * (k + 1), false), depth);
      MembersSpelled(c, f, ms[1..], k + 1, text, e + 1 + |g|, depth);
      GapSkipped(c, text, e + 1, g);
      MembersEndStep(ReaderOf(c), ms, text, i, e, e, e + |rest|);
    }
  }

  lemma MemberParts(f: Format, m: Member, k: nat, text: Text, i: nat, depth: nat)
    requires FormatOk(f) && Bytes(m.name) && Writable(m.value) && At(text, i, PrintMember(f, m, k, depth))
    ensures var name, g, value := Quoted(m.name), Spacing(f, Level(2 * k + 1, false), depth), PrintValue(f, m.value, depth);
            var e := i + |name|;
            && At(text, i, name) && e < |text| && text[e] == COLON && At(text, e + 1, g) && At(text, e + 1 + |g|, value)
            && i + |PrintMember(f, m, k, depth)| == e + 1 + |g| + |value| <= |text|
  {
    hide At, PrintValue, Spacing, Prefix, Quoted, Writable, Bytes, FormatOk;
    var name, g, value := Quoted(m.name), Spacing(f, Level(2 * k + 1, false), depth), PrintValue(f, m.value, depth);
    ColonPrefix(f, k, depth);
    AtFits(text, i, PrintMember(f, m, k, depth));
    AtConcat(text, i, name, [COLON] + g + value);
    AtConcat(text, i + |name|, [COLON] + g, value);
    AtConcat(text, i + |name|, [COLON], g);
    AtIndex(text, i + |name|, [COLON], 0);
  }

  lemma {:induction false} MemberSpelled(c: Settings, f: Format, m: Member, k: nat, text: Text, i: nat, depth: nat)
    requires SettingsOk(c) && FormatOk(f) && Bytes(m.name) && Writable(m.value)
    requires At(text, i, PrintMember(f, m, k, depth)) && EndsNumber(Peek(text, i + |PrintMember(f, m, k, depth)|))
    ensures Sound(ReaderOf(c)) && i <= |text| && MemberEnd(ReaderOf(c), m, text, i) == Some(i + |PrintMember(f, m, k, depth)|)
    ensures Peek(text, i) == QUOTE
    decreases m, 1
  {
    hide At, ReaderOf, SettingsOk, PrintValue, Spacing, ValueEnd, MemberEnd, Prefix, Quoted, StringFrom, Writable, Bytes, Sound, FormatOk;
    SettingsSound(c);
    var name, g, value := Quoted(m.name), Spacing(f, Level(2 * k + 1, false), depth), PrintValue(f, m.value, depth);
    MemberParts(f, m, k, text, i, depth);
    var e := i + |name|;
    QuotedBack(text, i, m.name);
    ReaderIs(c, text, i);
    NothingSkipped(c, text, e);
    GapsAreSpaces(f, Level(2 * k + 1, false), depth);
    PrintIsSpelled(c, f, m.value, text, e + 1 + |g|, depth);
    GapSkipped(c, text, e + 1, g);
    MemberEndStep(ReaderOf(c), m, text, i, e, e, e + 1 + |g|, e + 1 + |g| + |value|);
  }

  /** Write then read is the identity, for both writers and every flag of the reader. */
  lemma WriteThenRead(c: Settings, f: Format, v: Json)
    requires DoublesOk(c.double) && Agreeable(ReaderOf(c)) && FormatOk(f) && Writable(v)
    ensures Sound(ReaderOf(c))
    ensures var text := WriteAll(f, Output([], [], false), EventsOf(v)).os;
            Document(ReaderOf(c), text) == Accepted(|text|, EventsOf(v))
  {
    LexerIsSound(c.double, c.accepts, c.comments, c.trailingCommas, c.stopWhenDone);
    var text := WriteAll(f, Output([], [], false), EventsOf(v)).os;
    EventsPrint(f, Output([], [], false), v);
    assert text == PrintValue(f, v, 0) by {
      RootText(f, v);
    }
    PrintedDocument(c, f, v, text);
    AcceptedIsSpelled(ReaderOf(c), text, |text|, EventsOf(v));
  }

  lemma RootText(f: Format, v: Json)
    ensures PutText(f, Output([], [], false), PrintValue(f, v, 0)).os == PrintValue(f, v, 0)
  {
    assert [] + PrintValue(f, v, 0) == PrintValue(f, v, 0);
    hide PrintValue;
  }

  lemma PrintedDocument(c: Settings, f: Format, v: Json, text: Text)
    requires SettingsOk(c) && FormatOk(f) && Writable(v) && text == PrintValue(f, v, 0)
    ensures Sound(ReaderOf(c)) && DocumentEnd(ReaderOf(c), v, text) == Some(|text|)
  {
    hide PrintValue, ReaderOf, ValueEnd, SettingsOk, Writable;
    SettingsSound(c);
    assert text[0..0 + |text|] == text;
    PrintIsSpelled(c, f, v, text, 0, 0);
    NothingSkipped(c, text, 0);
    NothingSkipped(c, text, |text|);
  }

  // ----- The writer object -----

  /** Writer and PrettyWriter: the same methods, with or without white space around the values. */
  class Writer {
    const format: Format
    var os: Text
    var levelStack: seq<Level>
    var hasRoot: bool

    /** The fields as the automaton sees them. */
    function View(): Output
      reads this
    {
      Output(os, levelStack, hasRoot)
    }

    constructor (format: Format)
      ensures this.format == format && View() == Output([], [], false)
    {
      this.format := format;
      os, levelStack, hasRoot := [], [], false;
    }

    method WriteIndent()
      modifies this`os
      ensures os == old(os) + Indent(format, |levelStack|)
    {
      match format
      case Compact => 
      case Pretty(c, n, _) =>
        for i := 0 to |levelStack| * n
          invariant os == old(os) + seq(i, _ => c)
        {
          os := os + [c];
        }
    }

    method PutNewLine()
      modifies this`os
      ensures format.Pretty? ==> os == old(os) + NewLine(format, |levelStack|)
    {
      hide Indent;
      os := os + ['\n' as nat];
      WriteIndent();
      Assoc(old(os), ['\n' as nat], Indent(format, |levelStack|));
    }

    /** The white space of PrettyPrefix. */
    method PutGap(top: Level)
      modifies this`os
      ensures os == old(os) + Spacing(format, top, |levelStack|)
    {
      hide NewLine;
      if format.Pretty? {
        if top.inArray {
          if !format.singleLineArray {
            PutNewLine();
          } else if top.valueCount > 0 {
            os := os + [' ' as nat];
          }
        } else if top.valueCount % 2 == 0 {
          PutNewLine();
        } else {
          os := os + [' ' as nat];
        }
      }
    }

    method PutPrefix(isString: bool)
      requires MayPut(View(), isString)
      modifies this
      ensures View() == Prefixed(format, old(View()))
    {
      hide Spacing;
      if levelStack == [] {
        hasRoot := true;
        return;
      }
      var top := levelStack[|levelStack| - 1];
      if top.valueCount > 0 {
        os := os + [if top.inArray || top.valueCount % 2 == 0 then COMMA else COLON];
      }
      assert os == old(os) + Mark(top);
      PutGap(top);
      Assoc(old(os), Mark(top), Spacing(format, top, |levelStack|));
      levelStack := levelStack[|levelStack| - 1 := top.(valueCount := top.valueCount + 1)];
    }

    /** The loop over the bytes of a string. */
    method WriteString(s: Text)
      modifies this`os
      ensures os == old(os) + Quoted(s)
    {
      os := os + [QUOTE];
      for i := 0 to |s|
        invariant os + EscapedText(s[i..]) == old(os) + [QUOTE] + EscapedText(s)
      {
        var c := s[i];
        assert s[i..][0] == c && s[i..][1..] == s[i + 1..];
        var e := EscapeOf(c);
        ghost var before := os;
        if e != 0 {
          os := os + [BACKSLASH];
          os := os + [e];
          if e == 'u' as nat {
            os := os + ['0' as nat];
            os := os + ['0' as nat];
            os := os + [HexDigit(c / 16)];
            os := os + [HexDigit(c % 16)];
          }
        } else {
          os := os + [c];
        }
        assert os == before + EscapedChar(c);
        Assoc(before, EscapedChar(c), EscapedText(s[i + 1..]));
      }
      assert s[|s|..] == [] && os + [] == os;
      os := os + [QUOTE];
    }

    method String(s: Text)
      requires MayPut(View(), true)
      modifies this
      ensures View() == PutText(format, old(View()), Quoted(s))
    {
      PutPrefix(true);
      WriteString(s);
    }

    /** Int, Uint, Int64 and Uint64: the digits of i64toa and u64toa. */
    method Integer(v: int)
      requires MayPut(View(), false) && -0x8000_0000_0000_0000 <= v < 0x1_0000_0000_0000_0000
      modifies this
      ensures View() == PutText(format, old(View()), SignedText(v))
    {
      PutPrefix(false);
      var buffer := new nat[21];
      var end: nat;
      if v < 0x8000_0000_0000_0000 {
        end := I64toa(v, buffer, 0);
      } else {
        end := U64toa(v, buffer, 0);
      }
      assert buffer[..end] == SignedText(v);
      os := os + buffer[..end];
    }

    method Word(t: Text)
      requires MayPut(View(), false)
      modifies this
      ensures View() == PutText(format, old(View()), t)
    {
      PutPrefix(false);
      os := os + t;
    }

    method Start(c: nat, inArray: bool)
      requires MayPut(View(), false)
      modifies this
      ensures View() == Begin(format, old(View()), c, inArray)
    {
      PutPrefix(false);
      levelStack := levelStack + [Level(0, inArray)];
      os := os + [c];
    }

    method Finish(c: nat, inArray: bool)
      requires levelStack != [] && levelStack[|levelStack| - 1].inArray == inArray
      modifies this
      ensures View() == End(format, old(View()), c)
    {
      hide NewLine;
      var top := levelStack[|levelStack| - 1];
      levelStack := levelStack[..|levelStack| - 1];
      if format.Pretty? && top.valueCount != 0 && !(inArray && format.singleLineArray) {
        PutNewLine();
      }
      os := os + [c];
      Assoc(old(os), Ending(format, top, |levelStack|), [c]);
    }

    /** GenericValue::Accept: the events of a value, one after the other, given to the writer. */
    method Accept(v: Json)
      requires Writable(v) && MayPut(View(), v.Leaf? && v.v.String?)
      modifies this
      ensures View() == PutText(format, old(View()), PrintValue(format, v, |old(View()).levels|))
      decreases v, 0
    {
      match v
      case Leaf(s) =>
        match s {
          case Null => Word(NULL_TEXT);
          case Bool(b) => Word(if b then TRUE_TEXT else FALSE_TEXT);
          case String(t) => String(t);
          case Integer(n) => Integer(n);
        }
      case Array(es) =>
        AcceptElements(es);
      case Object(ms) =>
        AcceptMembers(ms);
    }

    method AcceptElements(es: seq<Json>)
      requires MayPut(View(), false) && forall i :: 0 <= i < |es| ==> Writable(es[i])
      modifies this
      ensures View() == PutText(format, old(View()), PrintValue(format, Array(es), |old(View()).levels|))
      decreases es, 1
    {
      hide Prefix, PrintElements, Ending, PrintMembers, PrintValue, Writable;
      ArrayText(format, es, |levelStack|);
      ghost var w := View();
      ghost var p := Prefixed(format, w);
      ghost var d := |w.levels| + 1;
      Start(LEFT_BRACKET, true);
      for i := 0 to |es|
        invariant levelStack == p.levels + [Level(i, true)] && hasRoot == p.hasRoot
        invariant os + PrintElements(format, es[i..], i, d) == p.os + [LEFT_BRACKET] + PrintElements(format, es[..], 0, d)
      {
        ghost var before := os;
        NextElement(format, es, i, d);
        Accept(es[i]);
        assert levelStack[..d - 1] == p.levels;
        Assoc4(before, Prefix(format, Level(i, true), d), PrintValue(format, es[i], d), PrintElements(format, es[i + 1..], i + 1, d));
      }
      NoMoreElements(format, es, d);
      Finish(RIGHT_BRACKET, true);
      assert es[..] == es;
      Assoc(p.os, [LEFT_BRACKET], PrintElements(format, es, 0, d));
    }

    method AcceptMembers(ms: seq<Member>)
      requires MayPut(View(), false) && forall i :: 0 <= i < |ms| ==> Bytes(ms[i].name) && Writable(ms[i].value)
      modifies this
      ensures View() == PutText(format, old(View()), PrintValue(format, Object(ms), |old(View()).levels|))
      decreases ms, 1
    {
      hide Prefix, Prefixed, Begin, PrintMember, PrintMembers, Ending, PrintElements, PrintValue, Quoted, Writable, Bytes;
      ObjectText(format, ms, |levelStack|);
      ghost var w := View();
      ghost var p := Prefixed(format, w);
      ghost var d := |w.levels| + 1;
      PrefixedDepth(format, w);
      BeginIs(format, w, LEFT_CURLY, false);
      Start(LEFT_CURLY, false);
      for i := 0 to |ms|
        invariant levelStack == p.levels + [Level(2 * i, false)] && hasRoot == p.hasRoot
        invariant os + PrintMembers(format, ms[i..], i, d) == p.os + [LEFT_CURLY] + PrintMembers(format, ms[..], 0, d)
      {
        ghost var before := View();
        NextMember(format, ms, i, d);
        MemberPut(format, before, p.levels, ms[i], i);
        String(ms[i].name);
        Accept(ms[i].value);
        Assoc4(before.os, Prefix(format, Level(2 * i, false), d), PrintMember(format, ms[i], i, d), PrintMembers(format, ms[i + 1..], i + 1, d));
      }
      NoMoreMembers(format, ms, d);
      Finish(RIGHT_CURLY, false);
      assert ms[..] == ms;
      Assoc(p.os, [LEFT_CURLY], PrintMembers(format, ms, 0, d));
    }
  }

  lemma ArrayText(f: Format, es: seq<Json>, depth: nat)
    ensures PrintValue(f, Array(es), depth) == [LEFT_BRACKET] + PrintElements(f, es, 0, depth + 1)
  {
  }

  lemma ObjectText(f: Format, ms: seq<Member>, depth: nat)
    ensures PrintValue(f, Object(ms), depth) == [LEFT_CURLY] + PrintMembers(f, ms, 0, depth + 1)
  {
  }

  lemma NextElement(f: Format, es: seq<Json>, i: nat, d: nat)
    requires d > 0 && i < |es|
    ensures PrintElements(f, es[i..], i, d) ==
            Prefix(f, Level(i, true), d) + (PrintValue(f, es[i], d) + PrintElements(f, es[i + 1..], i + 1, d))
  {
    assert es[i..][1..] == es[i + 1..];
  }

  lemma NoMoreElements(f: Format, es: seq<Json>, d: nat)
    requires d > 0
    ensures PrintElements(f, es[|es|..], |es|, d) == Ending(f, Level(|es|, true), d - 1) + [RIGHT_BRACKET]
  {
  }

  lemma NextMember(f: Format, ms: seq<Member>, i: nat, d: nat)
    requires d > 0 && i < |ms|
    ensures PrintMembers(f, ms[i..], i, d) ==
            Prefix(f, Level(2 * i, false), d) + (PrintMember(f, ms[i], i, d) + PrintMembers(f, ms[i + 1..], i + 1, d))
  {
    assert ms[i..][1..] == ms[i + 1..];
  }

  lemma NoMoreMembers(f: Format, ms: seq<Member>, d: nat)
    requires d > 0
    ensures PrintMembers(f, ms[|ms|..], |ms|, d) == Ending(f, Level(2 * |ms|, false), d - 1) + [RIGHT_CURLY]
  {
  }

  lemma BeginIs(f: Format, w: Output, c: nat, inArray: bool)
    ensures var p := Prefixed(f, w);
            Begin(f, w, c, inArray) == Output(p.os + [c], p.levels + [Level(0, inArray)], p.hasRoot)
  {
    hide Prefixed;
  }

  /** A name and a value, put into the innermost object. */
  lemma MemberPut(f: Format, w: Output, outer: seq<Level>, m: Member, i: nat)
    requires w.levels == outer + [Level(2 * i, false)]
    ensures var d := |w.levels|;
            var named := PutText(f, w, Quoted(m.name));
            && named.levels == outer + [Level(2 * i + 1, false)]
            && PutText(f, named, PrintValue(f, m.value, d)) ==
               Output(w.os + Prefix(f, Level(2 * i, false), d) + PrintMember(f, m, i, d), outer + [Level(2 * i + 2, false)], w.hasRoot)
  {
    hide Prefix, Quoted, PrintValue;
    var d := |w.levels|;
    MemberText(w.os, Prefix(f, Level(2 * i, false), d), Quoted(m.name), Prefix(f, Level(2 * i + 1, false), d), PrintValue(f, m.value, d));
  }

  lemma MemberText(a: Text, b: Text, c: Text, d: Text, e: Text)
    ensures a + b + c + d + e == a + b + (c + (d + e))
  {
  }
}
