/** The concrete syntax of patterns, and the proof that the reader of RegexPattern parses it. */
module RegexSyntax {
  import opened Options
  import opened Texts
  import opened RegexLanguage
  import opened RegexPattern

  datatype BracketChar = RawChar(c: CodePoint) | EscapedChar(c: CodePoint) | Backspace

  datatype Item = One(ch: BracketChar) | Span(first: BracketChar, last: BracketChar)

  datatype AtomText =
    | Raw(c: CodePoint)
    | Escaped(c: CodePoint)
    | Dot
    | Bracket(negate: bool, items: seq<Item>, dash: bool)

  datatype QuantifierText =
    | Question
    | Star
    | Plus
    | Exactly(n: Text)
    | NOrMore(n: Text)
    | NToM(n: Text, m: Text)

  /** A pattern as written, with its groups. */
  datatype Pattern =
    | Atomic(a: AtomText)
    | Group(body: Pattern)
    | Quantified(body: Pattern, q: QuantifierText)
    | Sequence(first: Pattern, rest: Pattern)
    | Choice(first: Pattern, rest: Pattern)

  const SPECIAL: set<nat> := {
    '^' as nat, '$' as nat, '|' as nat, '(' as nat, ')' as nat, '?' as nat, '*' as nat,
    '+' as nat, '{' as nat, '.' as nat, '[' as nat, '\\' as nat
  }

  function EscapeValue(c: CodePoint): CodePoint {
    if c == 'f' as nat then 0x0C else if c == 'n' as nat then 0x0A else if c == 'r' as nat then 0x0D
    else if c == 't' as nat then 0x09 else if c == 'v' as nat then 0x0B else c
  }

  predicate Escapable(c: CodePoint) {
    c in ESCAPED_LITERALS || c == 'f' as nat || c == 'n' as nat || c == 'r' as nat || c == 't' as nat || c == 'v' as nat
  }

  // ----- Text of a pattern -----

  function CharText(ch: BracketChar): Text {
    match ch
    case RawChar(c) => [c]
    case EscapedChar(c) => ['\\' as nat] + [c]
    case Backspace => ['\\' as nat] + ['b' as nat]
  }

  function CharValue(ch: BracketChar): CodePoint {
    match ch
    case RawChar(c) => c
    case EscapedChar(c) => EscapeValue(c)
    case Backspace => 0x08
  }

  function ItemText(item: Item): Text {
    match item
    case One(ch) => CharText(ch)
    case Span(a, b) => CharText(a) + (['-' as nat] + CharText(b))
  }

  function ItemRange(item: Item): Range {
    match item
    case One(ch) => Range(CharValue(ch), CharValue(ch))
    case Span(a, b) => Range(CharValue(a), CharValue(b))
  }

  function ItemsText(items: seq<Item>): Text {
    if items == [] then [] else ItemText(items[0]) + ItemsText(items[1..])
  }

  function ItemRanges(items: seq<Item>): seq<Range> {
    if items == [] then []
    else [ItemRange(items[0])] + ItemRanges(items[1..])
  }

  /** What follows '[' or '[^'. */
  function ClassBody(items: seq<Item>, dash: bool): Text {
    ItemsText(items) + (if dash then ['-' as nat] + [']' as nat] else [']' as nat])
  }

  function ClassRanges(items: seq<Item>, dash: bool): seq<Range> {
    ItemRanges(items) + if dash then [Range('-' as nat, '-' as nat)] else []
  }

  function AtomTextOf(a: AtomText): Text {
    match a
    case Raw(c) => [c]
    case Escaped(c) => ['\\' as nat] + [c]
    case Dot => ['.' as nat]
    case Bracket(negate, items, dash) => ['[' as nat] + if negate then ['^' as nat] + ClassBody(items, dash) else ClassBody(items, dash)
  }

  function SymbolOf(a: AtomText): Symbol {
    match a
    case Raw(c) => Literal(c)
    case Escaped(c) => Literal(EscapeValue(c))
    case Dot => AnyChar
    case Bracket(negate, items, dash) => Class(negate, ClassRanges(items, dash))
  }

  /** Value of a numeral, digit by digit from the left. */
  function NumeralFrom(r: nat, digits: Text): nat
    decreases |digits|
  {
    if digits == [] then r
    else if IsDigit(digits[0]) then NumeralFrom(r * 10 + (digits[0] - '0' as nat), digits[1..])
    else r
  }

  predicate Numeral(digits: Text) {
    digits != [] && AllDigits(digits) && NumeralFrom(0, digits) <= INFINITY
  }

  function QuantifierTextOf(q: QuantifierText): Text {
    match q
    case Question => ['?' as nat]
    case Star => ['*' as nat]
    case Plus => ['+' as nat]
    case Exactly(n) => ['{' as nat] + (n + ['}' as nat])
    case NOrMore(n) => ['{' as nat] + (n + ([',' as nat] + ['}' as nat]))
    case NToM(n, m) => ['{' as nat] + (n + ([',' as nat] + (m + ['}' as nat])))
  }

  /** `{n,4294967295}` reads as `{n,}`. */
  function QuantifierMeaning(q: QuantifierText): Quantifier {
    match q
    case Question => ZeroOrOne
    case Star => ZeroOrMore
    case Plus => OneOrMore
    case Exactly(n) => QuantifierOf(NumeralFrom(0, n), NumeralFrom(0, n))
    case NOrMore(n) => AtLeast(NumeralFrom(0, n))
    case NToM(n, m) => QuantifierOf(NumeralFrom(0, n), NumeralFrom(0, m))
  }

  function TextOf(p: Pattern): Text {
    match p
    case Atomic(a) => AtomTextOf(a)
    case Group(b) => ['(' as nat] + (TextOf(b) + [')' as nat])
    case Quantified(b, q) => TextOf(b) + QuantifierTextOf(q)
    case Sequence(a, r) => TextOf(a) + TextOf(r)
    case Choice(a, r) => TextOf(a) + (['|' as nat] + TextOf(r))
  }

  function TreeOf(p: Pattern): Regex {
    match p
    case Atomic(a) => Sym(SymbolOf(a))
    case Group(b) => TreeOf(b)
    case Quantified(b, q) => Repeat(TreeOf(b), QuantifierMeaning(q))
    case Sequence(a, r) => Then(TreeOf(a), TreeOf(r))
    case Choice(a, r) => Or(TreeOf(a), TreeOf(r))
  }

  // ----- Which patterns are well-formed -----

  predicate CharOk(ch: BracketChar) {
    match ch
    case RawChar(c) => c != ']' as nat && c != '\\' as nat
    case EscapedChar(c) => Escapable(c)
    case Backspace => true
  }

  function FirstChar(item: Item): BracketChar {
    if item.One? then item.ch else item.first
  }

  /** A '-' after a single character would start a range. */
  predicate ItemsOk(items: seq<Item>, dash: bool, afterOne: bool) {
    if items == [] then dash ==> afterOne
    else
      && CharOk(FirstChar(items[0]))
      && (afterOne ==> FirstChar(items[0]) != RawChar('-' as nat))
      && (items[0].Span? ==> CharOk(items[0].last))
      && ItemsOk(items[1..], dash, items[0].One?)
  }

  predicate AtomOk(a: AtomText) {
    match a
    case Raw(c) => c !in SPECIAL
    case Escaped(c) => Escapable(c)
    case Dot => true
    case Bracket(negate, items, dash) =>
      items != [] && ItemsOk(items, dash, false) && (!negate ==> FirstChar(items[0]) != RawChar('^' as nat))
  }

  predicate QuantifierOk(q: QuantifierText) {
    match q
    case Exactly(n) => Numeral(n) && NumeralFrom(0, n) > 0
    case NOrMore(n) => Numeral(n)
    case NToM(n, m) => Numeral(n) && Numeral(m) && NumeralFrom(0, n) <= NumeralFrom(0, m) && NumeralFrom(0, m) > 0
    case _ => true
  }

  function Level(p: Pattern): nat {
    match p
    case Atomic(_) => 0
    case Group(_) => 0
    case Quantified(_, _) => 1
    case Sequence(_, _) => 2
    case Choice(_, _) => 3
  }

  predicate WellFormed(p: Pattern) {
    match p
    case Atomic(a) => AtomOk(a)
    case Group(b) => WellFormed(b)
    case Quantified(b, q) => WellFormed(b) && Level(b) <= 1 && QuantifierOk(q)
    case Sequence(a, r) => WellFormed(a) && WellFormed(r) && Level(a) <= 1 && Level(r) <= 2
    case Choice(a, r) => WellFormed(a) && WellFormed(r) && Level(a) <= 2
  }

  // ----- Reading it back -----

  lemma AtChar(text: Text, i: nat, c: CodePoint)
    requires At(text, i, [c])
    ensures i < |text| && text[i] == c
  {
    assert text[i..i + 1][0] == text[i];
  }

  lemma ReadClassChar(text: Text, i: nat, ch: BracketChar)
    requires At(text, i, CharText(ch)) && CharOk(ch)
    ensures i < |text| && text[i] != ']' as nat && ClassChar(text, i) == Some((CharValue(ch), i + |CharText(ch)|))
    ensures text[i] == '-' as nat || CharValue(ch) == '-' as nat ==> ch == RawChar('-' as nat)
    ensures text[i] == '^' as nat ==> ch == RawChar('^' as nat)
  {
    hide At;
    match ch
    case RawChar(c) => AtChar(text, i, c);
    case EscapedChar(c) =>
      AtConcat(text, i, ['\\' as nat], [c]);
      AtChar(text, i, '\\' as nat);
      AtChar(text, i + 1, c);
    case Backspace =>
      AtConcat(text, i, ['\\' as nat], ['b' as nat]);
      AtChar(text, i, '\\' as nat);
      AtChar(text, i + 1, 'b' as nat);
  }

  lemma ReadOne(text: Text, i: nat, negate: bool, step: nat, rs: seq<Range>, ch: BracketChar)
    requires At(text, i, CharText(ch)) && CharOk(ch) && (step == 1 ==> ch != RawChar('-' as nat))
    requires step <= 1 && (step > 0 ==> rs != [])
    ensures ScanClass(text, i, false, negate, step, rs) ==
            ScanClass(text, i + |CharText(ch)|, false, negate, 1, rs + [Range(CharValue(ch), CharValue(ch))])
  {
    hide At, ClassChar, CharOk;
    ReadClassChar(text, i, ch);
  }

  lemma ReadLast(text: Text, i: nat, negate: bool, rs: seq<Range>, a: BracketChar, b: BracketChar)
    requires At(text, i, ['-' as nat] + CharText(b)) && CharOk(b)
    ensures ScanClass(text, i, false, negate, 1, rs + [Range(CharValue(a), CharValue(a))]) ==
            ScanClass(text, i + 1 + |CharText(b)|, false, negate, 0, rs + [Range(CharValue(a), CharValue(b))])
  {
    hide At, CharOk, CharValue, CharText;
    AtConcat(text, i, ['-' as nat], CharText(b));
    AtChar(text, i, '-' as nat);
    var rs1 := rs + [Range(CharValue(a), CharValue(a))];
    var rs2 := rs + [Range(CharValue(a), CharValue(b))];
    assert rs1[|rs1| - 1 := rs1[|rs1| - 1].(hi := CharValue(b))] == rs2;
    assert ScanClass(text, i, false, negate, 1, rs1) == ScanClass(text, i + 1, false, negate, 2, rs1);
    ReadClassChar(text, i + 1, b);
    assert ScanClass(text, i + 1, false, negate, 2, rs1) == ScanClass(text, i + 1 + |CharText(b)|, false, negate, 0, rs2);
  }

  lemma ReadEnd(text: Text, i: nat, negate: bool, step: nat, rs: seq<Range>, dash: bool)
    requires At(text, i, if dash then ['-' as nat] + [']' as nat] else [']' as nat])
    requires step <= 1 && rs != [] && (dash ==> step == 1)
    ensures ScanClass(text, i, false, negate, step, rs) ==
            Some((Class(negate, rs + if dash then [Range('-' as nat, '-' as nat)] else []), i + if dash then 2 else 1))
  {
    hide At;
    if dash {
      AtConcat(text, i, ['-' as nat], [']' as nat]);
      AtChar(text, i, '-' as nat);
      AtChar(text, i + 1, ']' as nat);
    } else {
      AtChar(text, i, ']' as nat);
      assert rs + [] == rs;
    }
  }

  /** One item of a class, read after the ranges `rs`. */
  lemma ReadItem(text: Text, i: nat, negate: bool, step: nat, rs: seq<Range>, item: Item)
    requires At(text, i, ItemText(item)) && CharOk(FirstChar(item)) && (item.Span? ==> CharOk(item.last))
    requires step <= 1 && (step > 0 ==> rs != []) && (step == 1 ==> FirstChar(item) != RawChar('-' as nat))
    ensures ScanClass(text, i, false, negate, step, rs) ==
            ScanClass(text, i + |ItemText(item)|, false, negate, if item.One? then 1 else 0, rs + [ItemRange(item)])
  {
    hide At, ScanClass, CharOk, CharValue, CharText;
    match item {
      case One(ch) =>
        ReadOne(text, i, negate, step, rs, ch);
      case Span(a, b) =>
        AtConcat(text, i, CharText(a), ['-' as nat] + CharText(b));
        ReadOne(text, i, negate, step, rs, a);
        ReadLast(text, i + |CharText(a)|, negate, rs, a, b);
    }
  }

  lemma ReadNoItems(text: Text, i: nat, negate: bool, step: nat, rs: seq<Range>, dash: bool)
    requires At(text, i, ClassBody([], dash)) && step <= 1 && rs != [] && (dash ==> step == 1)
    ensures ScanClass(text, i, false, negate, step, rs) ==
            Some((Class(negate, rs + ClassRanges([], dash)), i + |ClassBody([], dash)|))
  {
    hide At, ScanClass;
    assert ClassBody([], dash) == if dash then ['-' as nat] + [']' as nat] else [']' as nat];
    assert ClassRanges([], dash) == if dash then [Range('-' as nat, '-' as nat)] else [];
    ReadEnd(text, i, negate, step, rs, dash);
  }

  lemma FirstItem(text: Text, i: nat, rs: seq<Range>, items: seq<Item>, dash: bool)
    requires items != [] && At(text, i, ClassBody(items, dash))
    ensures At(text, i, ItemText(items[0])) && At(text, i + |ItemText(items[0])|, ClassBody(items[1..], dash))
    ensures |ClassBody(items, dash)| == |ItemText(items[0])| + |ClassBody(items[1..], dash)|
    ensures (rs + [ItemRange(items[0])]) + ClassRanges(items[1..], dash) == rs + ClassRanges(items, dash)
  {
    hide At, ItemText, ItemRange;
    assert ClassBody(items, dash) == ItemText(items[0]) + ClassBody(items[1..], dash);
    AtConcat(text, i, ItemText(items[0]), ClassBody(items[1..], dash));
  }

  lemma {:induction false} ReadItems(text: Text, i: nat, negate: bool, step: nat, rs: seq<Range>, items: seq<Item>, dash: bool)
    requires At(text, i, ClassBody(items, dash)) && ItemsOk(items, dash, step == 1)
    requires step <= 1 && (step > 0 ==> rs != []) && (rs != [] || items != [])
    ensures ScanClass(text, i, false, negate, step, rs) ==
            Some((Class(negate, rs + ClassRanges(items, dash)), i + |ClassBody(items, dash)|))
    decreases |items|
  {
    hide At, ScanClass, CharOk, ItemText, ItemRange, ClassBody, ClassRanges;
    if items == [] {
      ReadNoItems(text, i, negate, step, rs, dash);
    } else {
      var item := items[0];
      FirstItem(text, i, rs, items, dash);
      ReadItem(text, i, negate, step, rs, item);
      ReadItems(text, i + |ItemText(item)|, negate, if item.One? then 1 else 0, rs + [ItemRange(item)], items[1..], dash);
    }
  }

  lemma StartsWithFirst(items: seq<Item>, dash: bool)
    requires items != []
    ensures CharText(FirstChar(items[0])) <= ClassBody(items, dash)
  {
    hide CharText;
  }

  lemma ReadNegated(text: Text, i: nat, items: seq<Item>, dash: bool)
    requires items != [] && ItemsOk(items, dash, false) && At(text, i, ['^' as nat] + ClassBody(items, dash))
    ensures ScanClass(text, i, true, false, 0, []) ==
            Some((Class(true, [] + ClassRanges(items, dash)), i + 1 + |ClassBody(items, dash)|))
  {
    hide At, ItemsOk, ClassRanges, ClassBody;
    AtConcat(text, i, ['^' as nat], ClassBody(items, dash));
    AtChar(text, i, '^' as nat);
    ReadItems(text, i + 1, true, 0, [], items, dash);
  }

  lemma ReadPlain(text: Text, i: nat, items: seq<Item>, dash: bool)
    requires items != [] && ItemsOk(items, dash, false) && At(text, i, ClassBody(items, dash))
    requires FirstChar(items[0]) != RawChar('^' as nat)
    ensures ScanClass(text, i, true, false, 0, []) ==
            Some((Class(false, [] + ClassRanges(items, dash)), i + |ClassBody(items, dash)|))
  {
    hide At, ItemsOk, ClassRanges, ClassBody;
    FirstIsNotCaret(text, i, items, dash);
    ReadItems(text, i, false, 0, [], items, dash);
  }

  lemma ReadClass(text: Text, i: nat, a: AtomText)
    requires a.Bracket? && AtomOk(a) && At(text, i, AtomTextOf(a))
    ensures i < |text| && text[i] == '[' as nat
    ensures ScanClass(text, i + 1, true, false, 0, []) == Some((SymbolOf(a), i + |AtomTextOf(a)|))
  {
    hide At, ItemsOk, ClassRanges, ClassBody, ScanClass;
    var body := ClassBody(a.items, a.dash);
    AtConcat(text, i, ['[' as nat], if a.negate then ['^' as nat] + body else body);
    AtChar(text, i, '[' as nat);
    if a.negate {
      ReadNegated(text, i + 1, a.items, a.dash);
    } else {
      ReadPlain(text, i + 1, a.items, a.dash);
    }
    assert [] + ClassRanges(a.items, a.dash) == ClassRanges(a.items, a.dash);
  }

  lemma FirstIsNotCaret(text: Text, i: nat, items: seq<Item>, dash: bool)
    requires items != [] && ItemsOk(items, dash, false) && FirstChar(items[0]) != RawChar('^' as nat)
    requires At(text, i, ClassBody(items, dash))
    ensures i < |text| && text[i] != '^' as nat
  {
    hide At, CharText, ClassBody, CharOk;
    var first, body := CharText(FirstChar(items[0])), ClassBody(items, dash);
    StartsWithFirst(items, dash);
    assert body == first + body[|first|..];
    AtConcat(text, i, first, body[|first|..]);
    ReadClassChar(text, i, FirstChar(items[0]));
  }

  lemma {:induction false} NumeralGrows(r: nat, digits: Text)
    ensures r <= NumeralFrom(r, digits)
    decreases |digits|
  {
    if digits != [] && IsDigit(digits[0]) {
      NumeralGrows(r * 10 + (digits[0] - '0' as nat), digits[1..]);
    }
  }

  /** A numeral below 2^32 is read without wrap and without the overflow exit. */
  lemma {:induction false} ReadNumeral(text: Text, i: nat, r: nat, digits: Text)
    requires At(text, i, digits) && AllDigits(digits) && !IsDigit(Peek(text, i + |digits|))
    requires NumeralFrom(r, digits) <= INFINITY
    ensures r <= INFINITY && UnsignedLoop(text, i, r) == Some((NumeralFrom(r, digits), i + |digits|))
    decreases |digits|
  {
    hide At;
    NumeralGrows(r, digits);
    if digits != [] {
      var r' := r * 10 + (digits[0] - '0' as nat);
      assert digits == [digits[0]] + digits[1..];
      AtConcat(text, i, [digits[0]], digits[1..]);
      AtChar(text, i, digits[0]);
      NumeralGrows(r', digits[1..]);
      ReadNumeral(text, i + 1, r', digits[1..]);
    }
  }

  /** A numeral is read as its value exactly when the value has 32 bits. */
  lemma ReadUnsigned(text: Text, i: nat, digits: Text)
    requires At(text, i, digits) && digits != [] && AllDigits(digits) && !IsDigit(Peek(text, i + |digits|))
    ensures ParseUnsigned(text, i) == Some((NumeralFrom(0, digits), i + |digits|)) <==> NumeralFrom(0, digits) <= INFINITY
  {
    hide At, NumeralFrom, UnsignedLoop;
    assert digits == [digits[0]] + digits[1..];
    AtConcat(text, i, [digits[0]], digits[1..]);
    AtChar(text, i, digits[0]);
    if NumeralFrom(0, digits) <= INFINITY {
      ReadNumeral(text, i, 0, digits);
    }
  }

  /** Ten times 2^32 - 1 ends in a digit that passes the overflow test, and is read as another number. */
  lemma WrappedNumeralExample()
    ensures ParseUnsigned(['4' as nat, '2' as nat, '9' as nat, '4' as nat, '9' as nat, '6' as nat, '7' as nat, '2' as nat, '9' as nat,
                           '5' as nat, '0' as nat], 0) == Some((4294967286, 11))
  {
    var text := ['4' as nat, '2' as nat, '9' as nat, '4' as nat, '9' as nat, '6' as nat, '7' as nat, '2' as nat, '9' as nat,
                 '5' as nat, '0' as nat];
    assert UnsignedLoop(text, 11, 4294967286) == Some((4294967286, 11));
    assert UnsignedLoop(text, 10, 4294967295) == Some((4294967286, 11));
    assert UnsignedLoop(text, 9, 429496729) == Some((4294967286, 11));
    assert UnsignedLoop(text, 8, 42949672) == Some((4294967286, 11));
    assert UnsignedLoop(text, 7, 4294967) == Some((4294967286, 11));
    assert UnsignedLoop(text, 6, 429496) == Some((4294967286, 11));
    assert UnsignedLoop(text, 5, 42949) == Some((4294967286, 11));
    assert UnsignedLoop(text, 4, 4294) == Some((4294967286, 11));
    assert UnsignedLoop(text, 3, 429) == Some((4294967286, 11));
    assert UnsignedLoop(text, 2, 42) == Some((4294967286, 11));
    assert UnsignedLoop(text, 1, 4) == Some((4294967286, 11));
  }

  lemma ReadExactly(text: Text, i: nat, cfg: Config, n: Text)
    requires At(text, i, n + ['}' as nat]) && QuantifierOk(Exactly(n)) && cfg.trees != []
    ensures StepBrace(text, i, cfg) == Running(i + |n| + 1, Requantified(cfg, QuantifierMeaning(Exactly(n))))
  {
    hide At, ParseUnsigned, NumeralFrom, IsDigit;
    AtConcat(text, i, n, ['}' as nat]);
    AtChar(text, i + |n|, '}' as nat);
    BraceIsNoDigit();
    ReadUnsigned(text, i, n);
  }

  lemma ReadNOrMore(text: Text, i: nat, cfg: Config, n: Text)
    requires At(text, i, n + ([',' as nat] + ['}' as nat])) && QuantifierOk(NOrMore(n)) && cfg.trees != []
    ensures StepBrace(text, i, cfg) == Running(i + |n| + 2, Requantified(cfg, QuantifierMeaning(NOrMore(n))))
  {
    hide At, ParseUnsigned, NumeralFrom, IsDigit;
    AtConcat(text, i, n, [',' as nat] + ['}' as nat]);
    AtConcat(text, i + |n|, [',' as nat], ['}' as nat]);
    AtChar(text, i + |n|, ',' as nat);
    AtChar(text, i + |n| + 1, '}' as nat);
    BraceIsNoDigit();
    ReadUnsigned(text, i, n);
  }

  lemma ReadNToM(text: Text, i: nat, cfg: Config, n: Text, m: Text)
    requires At(text, i, n + ([',' as nat] + (m + ['}' as nat]))) && QuantifierOk(NToM(n, m)) && cfg.trees != []
    ensures StepBrace(text, i, cfg) == Running(i + |n| + 2 + |m|, Requantified(cfg, QuantifierMeaning(NToM(n, m))))
  {
    hide At, ParseUnsigned, NumeralFrom, IsDigit;
    AtConcat(text, i, n, [',' as nat] + (m + ['}' as nat]));
    AtConcat(text, i + |n|, [',' as nat], m + ['}' as nat]);
    AtConcat(text, i + |n| + 1, m, ['}' as nat]);
    AtChar(text, i + |n|, ',' as nat);
    AtChar(text, i + |n| + 1 + |m|, '}' as nat);
    BraceIsNoDigit();
    ReadUnsigned(text, i, n);
    ReadUnsigned(text, i + |n| + 1, m);
    StartsWithDigit(text, i + |n| + 1, m);
  }

  lemma BraceIsNoDigit()
    ensures !IsDigit('}' as nat) && !IsDigit(',' as nat)
  {
  }

  lemma StartsWithDigit(text: Text, i: nat, m: Text)
    requires At(text, i, m) && Numeral(m)
    ensures IsDigit(Peek(text, i)) && Peek(text, i) != '}' as nat
  {
    assert m == [m[0]] + m[1..];
    AtConcat(text, i, [m[0]], m[1..]);
    AtChar(text, i, m[0]);
  }

  function Requantified(cfg: Config, q: Quantifier): Config
    requires cfg.trees != []
  {
    var n := |cfg.trees|;
    cfg.(trees := cfg.trees[..n - 1] + [Repeat(cfg.trees[n - 1], q)])
  }

  /** A quantifier applies to the top tree. */
  lemma ReadQuantifier(text: Text, i: nat, cfg: Config, q: QuantifierText)
    requires At(text, i, QuantifierTextOf(q)) && QuantifierOk(q) && cfg.trees != []
    ensures i < |text|
    ensures Step(text, i, cfg) == Running(i + |QuantifierTextOf(q)|, Requantified(cfg, QuantifierMeaning(q)))
  {
    hide At, StepBrace, Numeral, NumeralFrom, QuantifierOf;
    match q
    case Question => AtChar(text, i, '?' as nat);
    case Star => AtChar(text, i, '*' as nat);
    case Plus => AtChar(text, i, '+' as nat);
    case Exactly(n) =>
      AtConcat(text, i, ['{' as nat], n + ['}' as nat]);
      AtChar(text, i, '{' as nat);
      ReadExactly(text, i + 1, cfg, n);
    case NOrMore(n) =>
      AtConcat(text, i, ['{' as nat], n + ([',' as nat] + ['}' as nat]));
      AtChar(text, i, '{' as nat);
      ReadNOrMore(text, i + 1, cfg, n);
    case NToM(n, m) =>
      AtConcat(text, i, ['{' as nat], n + ([',' as nat] + (m + ['}' as nat])));
      AtChar(text, i, '{' as nat);
      ReadNToM(text, i + 1, cfg, n, m);
  }

  // ----- The stacks while a branch is being read -----

  function Concats(k: nat): seq<Operator> {
    seq(k, _ => OpConcatenation)
  }

  /** The factors a sequence leaves on the operand stack. */
  function Factors(p: Pattern): seq<Regex>
    ensures Factors(p) != []
  {
    if p.Sequence? then [TreeOf(p.first)] + Factors(p.rest) else [TreeOf(p)]
  }

  function AfterFactors(cfg: Config, p: Pattern): Config
    requires cfg.counts != []
  {
    var n, k := |cfg.counts|, |Factors(p)|;
    cfg.(trees := cfg.trees + Factors(p),
         ops := cfg.ops + Concats(if cfg.counts[n - 1] > 0 then k else k - 1),
         counts := cfg.counts[n - 1 := cfg.counts[n - 1] + k])
  }

  /** What a choice leaves: every alternative but the last one is evaluated. */
  function ChoiceTrees(p: Pattern): seq<Regex> {
    if p.Choice? then [TreeOf(p.first)] + ChoiceTrees(p.rest) else Factors(p)
  }

  function ChoiceOps(p: Pattern): seq<Operator> {
    if p.Choice? then [OpAlternation] + ChoiceOps(p.rest) else Concats(|Factors(p)| - 1)
  }

  function LastFactors(p: Pattern): nat {
    if p.Choice? then LastFactors(p.rest) else |Factors(p)|
  }

  function AfterChoice(cfg: Config, p: Pattern): Config
    requires cfg.counts != []
  {
    cfg.(trees := cfg.trees + ChoiceTrees(p),
         ops := cfg.ops + ChoiceOps(p),
         counts := cfg.counts[|cfg.counts| - 1 := LastFactors(p)])
  }

  predicate BranchStart(cfg: Config) {
    && cfg.counts != [] && cfg.counts[|cfg.counts| - 1] == 0
    && (cfg.ops == [] || cfg.ops[|cfg.ops| - 1] == OpAlternation || cfg.ops[|cfg.ops| - 1] == OpLeftParenthesis)
  }

  lemma EvaluateTop(ts: seq<Regex>, x: Regex, y: Regex, ops: seq<Operator>, op: Operator, stop: Stop)
    requires op == OpConcatenation || (op == OpAlternation && stop != AtAlternation)
    ensures Reduce(ts + [x] + [y], ops + [op], stop) ==
            Reduce(ts + [if op == OpConcatenation then Then(x, y) else Or(x, y)], ops, stop)
  {
    var all, os := ts + [x] + [y], ops + [op];
    assert all[..|all| - 2] == ts && all[|all| - 2] == x && all[|all| - 1] == y;
    assert os[..|os| - 1] == ops;
  }

  lemma {:induction false} ReduceFactors(ts: seq<Regex>, ops: seq<Operator>, p: Pattern, stop: Stop)
    ensures Reduce(ts + Factors(p), ops + Concats(|Factors(p)| - 1), stop) == Reduce(ts + [TreeOf(p)], ops, stop)
    decreases p
  {
    hide Reduce;
    if p.Sequence? {
      var x, k := TreeOf(p.first), |Factors(p.rest)|;
      assert ts + Factors(p) == ts + [x] + Factors(p.rest);
      assert ops + Concats(k) == ops + [OpConcatenation] + Concats(k - 1);
      ReduceFactors(ts + [x], ops + [OpConcatenation], p.rest, stop);
      EvaluateTop(ts, x, TreeOf(p.rest), ops, OpConcatenation, stop);
    } else {
      assert ops + Concats(0) == ops;
    }
  }

  lemma {:induction false} ReduceChoice(ts: seq<Regex>, ops: seq<Operator>, p: Pattern, stop: Stop)
    requires stop != AtAlternation
    ensures Reduce(ts + ChoiceTrees(p), ops + ChoiceOps(p), stop) == Reduce(ts + [TreeOf(p)], ops, stop)
    decreases p
  {
    if p.Choice? {
      var x := TreeOf(p.first);
      assert ts + ChoiceTrees(p) == ts + [x] + ChoiceTrees(p.rest);
      assert ops + ChoiceOps(p) == ops + [OpAlternation] + ChoiceOps(p.rest);
      ReduceChoice(ts + [x], ops + [OpAlternation], p.rest, stop);
      EvaluateTop(ts, x, TreeOf(p.rest), ops, OpAlternation, stop);
    } else {
      ReduceFactors(ts, ops, p, stop);
    }
  }

  lemma AtomFactors(cfg: Config, a: AtomText, i: nat)
    requires cfg.counts != []
    ensures PushAtom(cfg, SymbolOf(a), i) == Running(i, AfterFactors(cfg, Atomic(a)))
  {
    hide SymbolOf, AtomTextOf;
    assert Factors(Atomic(a)) == [Sym(SymbolOf(a))];
    assert cfg.ops + Concats(0) == cfg.ops && Concats(1) == [OpConcatenation];
  }

  lemma ReadAtom(text: Text, i: nat, cfg: Config, a: AtomText)
    requires At(text, i, AtomTextOf(a)) && AtomOk(a) && cfg.counts != []
    ensures i < |text|
    ensures Step(text, i, cfg) == Running(i + |AtomTextOf(a)|, AfterFactors(cfg, Atomic(a)))
  {
    hide At, AfterFactors, ScanClass, PushAtom, ItemsOk, ClassBody;
    AtomFactors(cfg, a, i + |AtomTextOf(a)|);
    match a
    case Raw(c) => AtChar(text, i, c);
    case Dot => AtChar(text, i, '.' as nat);
    case Escaped(c) =>
      AtConcat(text, i, ['\\' as nat], [c]);
      AtChar(text, i, '\\' as nat);
      AtChar(text, i + 1, c);
    case Bracket(_, _, _) => ReadClass(text, i, a);
  }

  lemma RunStep(text: Text, i: nat, cfg: Config, j: nat, cfg': Config)
    requires i < |text| && Step(text, i, cfg) == Running(j, cfg')
    ensures Run(text, i, cfg) == Run(text, j, cfg')
  {
    hide Step;
  }

  lemma RequantifiedFactors(cfg: Config, b: Pattern, q: QuantifierText)
    requires Level(b) <= 1 && cfg.counts != []
    ensures Requantified(AfterFactors(cfg, b), QuantifierMeaning(q)) == AfterFactors(cfg, Quantified(b, q))
  {
    hide QuantifierMeaning;
    var mid := AfterFactors(cfg, b);
    assert mid.trees[..|mid.trees| - 1] == cfg.trees;
  }

  lemma SequencedFactors(cfg: Config, a: Pattern, r: Pattern)
    requires Level(a) <= 1 && cfg.counts != []
    ensures AfterFactors(AfterFactors(cfg, a), r) == AfterFactors(cfg, Sequence(a, r))
  {
    hide TreeOf;
    var n, k := |cfg.counts|, |Factors(r)|;
    assert Factors(Sequence(a, r)) == Factors(a) + Factors(r);
    assert cfg.trees + Factors(a) + Factors(r) == cfg.trees + Factors(Sequence(a, r));
    if cfg.counts[n - 1] > 0 {
      assert Concats(1) + Concats(k) == Concats(k + 1);
      assert cfg.ops + Concats(1) + Concats(k) == cfg.ops + Concats(k + 1);
    } else {
      assert cfg.ops + Concats(0) + Concats(k) == cfg.ops + Concats(k);
    }
    assert cfg.counts[n - 1 := cfg.counts[n - 1] + 1][n - 1 := cfg.counts[n - 1] + 1 + k] == cfg.counts[n - 1 := cfg.counts[n - 1] + (1 + k)];
  }

  /** A pattern without a top-level choice leaves its factors, still to be concatenated. */
  lemma {:induction false} ReadFactors(text: Text, i: nat, cfg: Config, p: Pattern)
    requires WellFormed(p) && Level(p) <= 2 && At(text, i, TextOf(p)) && cfg.counts != []
    ensures Run(text, i, cfg) == Run(text, i + |TextOf(p)|, AfterFactors(cfg, p))
    decreases p, 1
  {
    hide At, Step, Run, AfterFactors, AtomOk, QuantifierOk, QuantifierTextOf, AtomTextOf, QuantifierMeaning;
    match p
    case Atomic(a) =>
      ReadAtom(text, i, cfg, a);
      RunStep(text, i, cfg, i + |TextOf(p)|, AfterFactors(cfg, p));
    case Group(b) =>
      ReadGroup(text, i, cfg, b);
    case Quantified(b, q) =>
      AtConcat(text, i, TextOf(b), QuantifierTextOf(q));
      ReadFactors(text, i, cfg, b);
      var mid, j := AfterFactors(cfg, b), i + |TextOf(b)|;
      AfterFactorsSome(cfg, b);
      ReadQuantifier(text, j, mid, q);
      RunStep(text, j, mid, j + |QuantifierTextOf(q)|, Requantified(mid, QuantifierMeaning(q)));
      RequantifiedFactors(cfg, b, q);
    case Sequence(a, r) =>
      AtConcat(text, i, TextOf(a), TextOf(r));
      ReadFactors(text, i, cfg, a);
      AfterFactorsSome(cfg, a);
      ReadFactors(text, i + |TextOf(a)|, AfterFactors(cfg, a), r);
      SequencedFactors(cfg, a, r);
  }

  lemma AfterFactorsSome(cfg: Config, p: Pattern)
    requires cfg.counts != []
    ensures AfterFactors(cfg, p).trees != [] && AfterFactors(cfg, p).counts != []
  {
    hide Factors;
  }

  lemma GroupFactors(cfg: Config, b: Pattern)
    requires cfg.counts != []
    ensures AfterFactors(cfg, Group(b)) ==
            cfg.(trees := cfg.trees + [TreeOf(b)],
                 ops := if cfg.counts[|cfg.counts| - 1] > 0 then cfg.ops + [OpConcatenation] else cfg.ops,
                 counts := cfg.counts[|cfg.counts| - 1 := cfg.counts[|cfg.counts| - 1] + 1])
  {
    assert Factors(Group(b)) == [TreeOf(b)];
    assert cfg.ops + Concats(0) == cfg.ops && Concats(1) == [OpConcatenation];
  }

  lemma ReduceGroup(ts: seq<Regex>, ops: seq<Operator>, b: Pattern)
    ensures Reduce(ts + ChoiceTrees(b), ops + [OpLeftParenthesis] + ChoiceOps(b), AtParenthesis) ==
            Reduced(ts + [TreeOf(b)], ops + [OpLeftParenthesis])
  {
    hide TreeOf, ChoiceTrees, ChoiceOps;
    ReduceChoice(ts, ops + [OpLeftParenthesis], b, AtParenthesis);
  }

  /** At ')' the group's own operators are evaluated and the group becomes one factor. */
  lemma CloseGroup(cfg: Config, b: Pattern, j: nat)
    requires cfg.counts != []
    ensures StepClose(AfterChoice(Opened(cfg), b), j) == Running(j, AfterFactors(cfg, Group(b)))
  {
    hide TreeOf, Reduce, AfterFactors, ChoiceTrees, ChoiceOps;
    var ops := cfg.ops + [OpLeftParenthesis];
    var mid := AfterChoice(Opened(cfg), b);
    ReduceGroup(cfg.trees, cfg.ops, b);
    assert ops[..|ops| - 1] == cfg.ops;
    assert mid.counts[..|mid.counts| - 1] == cfg.counts;
    GroupFactors(cfg, b);
  }

  function Opened(cfg: Config): Config {
    cfg.(ops := cfg.ops + [OpLeftParenthesis], counts := cfg.counts + [0])
  }

  lemma GroupParts(text: Text, i: nat, b: Pattern)
    requires At(text, i, TextOf(Group(b)))
    ensures At(text, i, ['(' as nat]) && At(text, i + 1, TextOf(b)) && At(text, i + 1 + |TextOf(b)|, [')' as nat])
    ensures |TextOf(Group(b))| == |TextOf(b)| + 2
  {
    hide At;
    AtConcat(text, i, ['(' as nat], TextOf(b) + [')' as nat]);
    AtConcat(text, i + 1, TextOf(b), [')' as nat]);
  }

  lemma {:induction false} ReadGroup(text: Text, i: nat, cfg: Config, b: Pattern)
    requires WellFormed(b) && At(text, i, TextOf(Group(b))) && cfg.counts != []
    ensures Run(text, i, cfg) == Run(text, i + |TextOf(Group(b))|, AfterFactors(cfg, Group(b)))
    decreases b, 3
  {
    hide At, Run, AfterFactors, AfterChoice, WellFormed, StepClose, TextOf;
    GroupParts(text, i, b);
    AtChar(text, i, '(' as nat);
    var j := i + 1 + |TextOf(b)|;
    AtChar(text, j, ')' as nat);
    RunStep(text, i, cfg, i + 1, Opened(cfg));
    ReadChoice(text, i + 1, Opened(cfg), b);
    CloseGroup(cfg, b, j + 1);
    RunStep(text, j, AfterChoice(Opened(cfg), b), j + 1, AfterFactors(cfg, Group(b)));
  }

  function NextBranch(cfg: Config, a: Pattern): Config {
    cfg.(trees := cfg.trees + [TreeOf(a)], ops := cfg.ops + [OpAlternation])
  }

  /** At '|' the branch read so far becomes one operand. */
  lemma CloseBranch(cfg: Config, a: Pattern, j: nat)
    requires BranchStart(cfg)
    ensures StepBar(AfterFactors(cfg, a), j) == Running(j, NextBranch(cfg, a)) && BranchStart(NextBranch(cfg, a))
  {
    hide TreeOf;
    ReduceFactors(cfg.trees, cfg.ops, a, AtAlternation);
    assert Reduce(cfg.trees + [TreeOf(a)], cfg.ops, AtAlternation) == Reduced(cfg.trees + [TreeOf(a)], cfg.ops);
    assert AfterFactors(cfg, a).counts[|cfg.counts| - 1 := 0] == cfg.counts;
  }

  lemma NextChoice(cfg: Config, a: Pattern, r: Pattern)
    requires cfg.counts != []
    ensures AfterChoice(NextBranch(cfg, a), r) == AfterChoice(cfg, Choice(a, r))
  {
    hide TreeOf;
    assert NextBranch(cfg, a).trees + ChoiceTrees(r) == cfg.trees + ChoiceTrees(Choice(a, r));
    assert NextBranch(cfg, a).ops + ChoiceOps(r) == cfg.ops + ChoiceOps(Choice(a, r));
  }

  lemma LastBranch(cfg: Config, p: Pattern)
    requires !p.Choice? && BranchStart(cfg)
    ensures AfterFactors(cfg, p) == AfterChoice(cfg, p)
  {
    hide TreeOf, Factors, Concats;
  }

  /** A branch and the bar behind it. */
  lemma {:induction false} ReadBranch(text: Text, i: nat, cfg: Config, a: Pattern)
    requires WellFormed(a) && Level(a) <= 2 && At(text, i, TextOf(a)) && At(text, i + |TextOf(a)|, ['|' as nat]) && BranchStart(cfg)
    ensures Run(text, i, cfg) == Run(text, i + |TextOf(a)| + 1, NextBranch(cfg, a)) && BranchStart(NextBranch(cfg, a))
    decreases a, 2
  {
    hide At, Run, AfterFactors, StepBar, TextOf, NextBranch, WellFormed;
    var j := i + |TextOf(a)|;
    AtChar(text, j, '|' as nat);
    ReadFactors(text, i, cfg, a);
    CloseBranch(cfg, a, j + 1);
    RunStep(text, j, AfterFactors(cfg, a), j + 1, NextBranch(cfg, a));
  }

  lemma ChoiceParts(text: Text, i: nat, a: Pattern, r: Pattern)
    requires WellFormed(Choice(a, r)) && At(text, i, TextOf(Choice(a, r)))
    ensures WellFormed(a) && Level(a) <= 2 && At(text, i, TextOf(a)) && At(text, i + |TextOf(a)|, ['|' as nat])
    ensures WellFormed(r) && At(text, i + |TextOf(a)| + 1, TextOf(r))
    ensures |TextOf(Choice(a, r))| == |TextOf(a)| + 1 + |TextOf(r)|
  {
    hide At, Level;
    AtConcat(text, i, TextOf(a), ['|' as nat] + TextOf(r));
    AtConcat(text, i + |TextOf(a)|, ['|' as nat], TextOf(r));
  }

  /** A pattern leaves its last alternative's factors behind one operator per bar. */
  lemma {:induction false} ReadChoice(text: Text, i: nat, cfg: Config, p: Pattern)
    requires WellFormed(p) && At(text, i, TextOf(p)) && BranchStart(cfg)
    ensures Run(text, i, cfg) == Run(text, i + |TextOf(p)|, AfterChoice(cfg, p))
    decreases p, 2
  {
    hide At, Run, AfterFactors, AfterChoice, NextBranch, BranchStart, TextOf, WellFormed;
    StartHasCounts(cfg);
    if p.Choice? {
      var a, r := p.first, p.rest;
      ChoiceParts(text, i, a, r);
      ReadBranch(text, i, cfg, a);
      ReadChoice(text, i + |TextOf(a)| + 1, NextBranch(cfg, a), r);
      NextChoice(cfg, a, r);
    } else {
      ReadFactors(text, i, cfg, p);
      LastBranch(cfg, p);
    }
  }

  lemma StartHasCounts(cfg: Config)
    requires BranchStart(cfg)
    ensures cfg.counts != []
  {
  }

  /** The text of a pattern, with '^' and '$' at its ends when it is anchored. */
  function AnchoredText(p: Pattern, begin: bool, end: bool): Text {
    (if begin then ['^' as nat] else []) + (TextOf(p) + if end then ['$' as nat] else [])
  }

  lemma ReadEnding(text: Text, j: nat, cfg: Config, end: bool)
    requires if end then j + 1 == |text| && text[j] == '$' as nat else j == |text| && !cfg.anchorEnd
    ensures Run(text, j, cfg) == Finish(cfg.(anchorEnd := end))
  {
    hide Finish;
    if end {
      RunStep(text, j, cfg, j + 1, cfg.(anchorEnd := true));
    }
  }

  lemma FinishChoice(cfg: Config, p: Pattern)
    requires cfg.trees == [] && cfg.ops == [] && cfg.counts != []
    ensures Finish(AfterChoice(cfg, p)) == Compiled(TreeOf(p), cfg.anchorBegin, cfg.anchorEnd)
  {
    hide TreeOf;
    ReduceChoice([], [], p, AtBottom);
    assert Reduce([] + [TreeOf(p)], [], AtBottom) == Reduced([TreeOf(p)], []);
  }

  /** Reading the text of any well-formed pattern gives back its tree and its anchors. */
  lemma ReadBack(p: Pattern, begin: bool, end: bool)
    requires WellFormed(p)
    ensures Read(AnchoredText(p, begin, end)) == Compiled(TreeOf(p), begin, end)
  {
    hide Run, TreeOf, TextOf, WellFormed, Finish;
    var text := AnchoredText(p, begin, end);
    var i := if begin then 1 else 0;
    var j := i + |TextOf(p)|;
    var cfg := START.(anchorBegin := begin);
    assert text[i..j] == TextOf(p);
    if begin {
      RunStep(text, 0, START, 1, cfg);
    }
    ReadChoice(text, i, cfg, p);
    ReadEnding(text, j, AfterChoice(cfg, p), end);
    FinishChoice(cfg.(anchorEnd := end), p);
    assert AfterChoice(cfg, p).(anchorEnd := end) == AfterChoice(cfg.(anchorEnd := end), p);
  }
}
