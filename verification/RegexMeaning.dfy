/** What a written pattern matches, said on the pattern itself, and that the reader and the matcher mean the same. */
module RegexMeanings {
  import opened Options
  import opened Texts
  import opened RegexLanguage
  import opened RegexPattern
  import opened RegexSyntax
  import opened RegexSearch
  import opened RegexMatch

  // ----- Which patterns there are -----

  /** What a backslash and `c` stand for. */
  function EscapeOf(c: nat): Option<CodePoint> {
    if c == 'f' as nat then Some(0x0C)
    else if c == 'n' as nat then Some(0x0A)
    else if c == 'r' as nat then Some(0x0D)
    else if c == 't' as nat then Some(0x09)
    else if c == 'v' as nat then Some(0x0B)
    else if c == '^' as nat || c == '$' as nat || c == '|' as nat || c == '(' as nat || c == ')' as nat
         || c == '?' as nat || c == '*' as nat || c == '+' as nat || c == '.' as nat || c == '[' as nat
         || c == ']' as nat || c == '{' as nat || c == '}' as nat || c == '\\' as nat then Some(c)
    else None
  }

  predicate ClassCharWritten(ch: BracketChar) {
    match ch
    case RawChar(c) => c != ']' as nat && c != '\\' as nat
    case EscapedChar(c) => EscapeOf(c).Some?
    case Backspace => true
  }

  predicate ItemWritten(item: Item) {
    match item
    case One(ch) => ClassCharWritten(ch)
    case Span(a, b) => ClassCharWritten(a) && ClassCharWritten(b)
  }

  function StartOf(item: Item): BracketChar {
    if item.One? then item.ch else item.first
  }

  /** A '-' stands for itself in front of the class, behind a range, and at the end behind a single character. */
  predicate ClassWritten(negate: bool, items: seq<Item>, dash: bool) {
    && items != []
    && (forall k :: 0 <= k < |items| ==> ItemWritten(items[k]))
    && (forall k :: 0 < k < |items| && StartOf(items[k]) == RawChar('-' as nat) ==> items[k - 1].Span?)
    && (StartOf(items[0]) == RawChar('^' as nat) ==> negate)
    && (dash ==> items[|items| - 1].One?)
  }

  predicate AtomWritten(a: AtomText) {
    match a
    case Raw(c) =>
      && c != '^' as nat && c != '$' as nat && c != '|' as nat && c != '(' as nat && c != ')' as nat && c != '?' as nat
      && c != '*' as nat && c != '+' as nat && c != '{' as nat && c != '.' as nat && c != '[' as nat && c != '\\' as nat
    case Escaped(c) => EscapeOf(c).Some?
    case Dot => true
    case Bracket(negate, items, dash) => ClassWritten(negate, items, dash)
  }

  /** Digits '0' to '9', at least one, worth less than 2^32. */
  predicate NumberWritten(t: Text) {
    && t != [] && (forall k :: 0 <= k < |t| ==> 0x30 <= t[k] <= 0x39)
    && Number(t) < 0x1_0000_0000
  }

  function Number(t: seq<nat>): nat {
    if t == [] || t[|t| - 1] < 0x30 then 0 else 10 * Number(t[..|t| - 1]) + (t[|t| - 1] - 0x30)
  }

  predicate QuantifierWritten(q: QuantifierText) {
    match q
    case Exactly(n) => NumberWritten(n) && Number(n) > 0
    case NOrMore(n) => NumberWritten(n)
    case NToM(n, m) => NumberWritten(n) && NumberWritten(m) && Number(n) <= Number(m) && Number(m) > 0
    case _ => true
  }

  /** Quantifiers bind closest, then sequences, then choices. */
  predicate Written(p: Pattern) {
    match p
    case Atomic(a) => AtomWritten(a)
    case Group(b) => Written(b)
    case Quantified(b, q) => Written(b) && QuantifierWritten(q) && !b.Sequence? && !b.Choice?
    case Sequence(a, r) => Written(a) && Written(r) && !a.Sequence? && !a.Choice? && !r.Choice?
    case Choice(a, r) => Written(a) && Written(r) && !a.Choice?
  }

  // ----- What they match -----

  function CharOf(ch: BracketChar): CodePoint
    requires ClassCharWritten(ch)
  {
    match ch
    case RawChar(c) => c
    case EscapedChar(c) => EscapeOf(c).value
    case Backspace => 0x08
  }

  predicate ItemMeans(item: Item, c: CodePoint)
    requires ItemWritten(item)
  {
    match item
    case One(ch) => c == CharOf(ch)
    case Span(a, b) => CharOf(a) <= c <= CharOf(b)
  }

  predicate AtomMeans(a: AtomText, c: CodePoint)
    requires AtomWritten(a)
  {
    match a
    case Raw(d) => c == d
    case Escaped(d) => c == EscapeOf(d).value
    case Dot => true
    case Bracket(negate, items, dash) =>
      negate != ((exists k :: 0 <= k < |items| && ItemMeans(items[k], c)) || (dash && c == '-' as nat))
  }

  /** How often the quantified part may come; 2^32 - 1 stands for no bound. */
  predicate Counts(q: QuantifierText, n: nat)
    requires QuantifierWritten(q)
  {
    match q
    case Question => n <= 1
    case Star => true
    case Plus => n >= 1
    case Exactly(t) => if Number(t) == 0xFFFF_FFFF then n >= 0xFFFF_FFFF else n == Number(t)
    case NOrMore(t) => n >= Number(t)
    case NToM(t, u) => n >= Number(t) && (n <= Number(u) || Number(u) == 0xFFFF_FFFF)
  }

  ghost function Joined(ws: seq<Word>): Word {
    if ws == [] then [] else ws[0] + Joined(ws[1..])
  }

  /** The word is matched by the pattern. */
  ghost predicate Means(p: Pattern, w: Word)
    requires Written(p)
    decreases p
  {
    match p
    case Atomic(a) => |w| == 1 && AtomMeans(a, w[0])
    case Group(b) => Means(b, w)
    case Quantified(b, q) =>
      exists ws: seq<Word> :: Joined(ws) == w && Counts(q, |ws|) && forall k :: 0 <= k < |ws| ==> Means(b, ws[k])
    case Sequence(a, r) => exists k :: 0 <= k <= |w| && Means(a, w[..k]) && Means(r, w[k..])
    case Choice(a, r) => Means(a, w) || Means(r, w)
  }

  predicate Endless(q: QuantifierText) {
    match q
    case Question => false
    case Exactly(t) => Number(t) == 0xFFFF_FFFF
    case NToM(_, u) => Number(u) == 0xFFFF_FFFF
    case _ => true
  }

  /** No part under '*', '+' or '{n,}' matches the empty word. */
  ghost predicate Productive(p: Pattern)
    requires Written(p)
  {
    match p
    case Atomic(_) => true
    case Group(b) => Productive(b)
    case Quantified(b, q) => Productive(b) && (Endless(q) ==> !Means(b, []))
    case Sequence(a, r) => Productive(a) && Productive(r)
    case Choice(a, r) => Productive(a) && Productive(r)
  }

  // ----- The same patterns -----

  lemma {:induction false} SameNumber(r: nat, t: Text)
    requires AllDigits(t)
    ensures t != [] ==> NumeralFrom(r, t) == 10 * NumeralFrom(r, t[..|t| - 1]) + (t[|t| - 1] as nat - 0x30)
    decreases |t|
  {
    if |t| > 1 {
      var r' := r * 10 + (t[0] - '0' as nat);
      SameNumber(r', t[1..]);
      assert t[1..][..|t| - 2] == t[..|t| - 1][1..];
      assert t[..|t| - 1][0] == t[0];
    }
  }

  lemma {:induction false} NumberIs(t: Text)
    requires AllDigits(t)
    ensures Number(t) == NumeralFrom(0, t)
    decreases |t|
  {
    if t != [] {
      SameNumber(0, t);
      NumberIs(t[..|t| - 1]);
    }
  }

  lemma NumberIsNumeral(t: Text)
    ensures NumberWritten(t) <==> Numeral(t)
    ensures Numeral(t) ==> Number(t) == NumeralFrom(0, t)
  {
    hide Number, NumeralFrom;
    if AllDigits(t) {
      NumberIs(t);
    }
  }

  lemma QuantifierIsOk(q: QuantifierText)
    ensures QuantifierWritten(q) <==> QuantifierOk(q)
  {
    hide Number, NumeralFrom, Numeral, NumberWritten;
    match q
    case Exactly(n) => NumberIsNumeral(n);
    case NOrMore(n) => NumberIsNumeral(n);
    case NToM(n, m) => NumberIsNumeral(n); NumberIsNumeral(m);
    case _ =>
  }

  lemma EscapeIs(c: CodePoint)
    ensures EscapeOf(c).Some? <==> Escapable(c)
    ensures Escapable(c) ==> EscapeOf(c) == Some(EscapeValue(c))
  {
  }

  lemma CharIs(ch: BracketChar)
    ensures ClassCharWritten(ch) <==> CharOk(ch)
    ensures CharOk(ch) ==> CharOf(ch) == CharValue(ch)
  {
    hide EscapeOf, Escapable, EscapeValue;
    if ch.EscapedChar? {
      EscapeIs(ch.c);
    }
  }

  predicate ItemsWritten(items: seq<Item>, dash: bool, afterOne: bool) {
    && (forall k :: 0 <= k < |items| ==> ItemWritten(items[k]))
    && (forall k :: 0 < k < |items| && StartOf(items[k]) == RawChar('-' as nat) ==> items[k - 1].Span?)
    && (items != [] && afterOne ==> StartOf(items[0]) != RawChar('-' as nat))
    && (dash ==> if items == [] then afterOne else items[|items| - 1].One?)
  }

  lemma {:induction false} ItemsAreOk(items: seq<Item>, dash: bool, afterOne: bool)
    ensures ItemsWritten(items, dash, afterOne) <==> ItemsOk(items, dash, afterOne)
    decreases |items|
  {
    hide CharOk, ClassCharWritten;
    if items != [] {
      var item, rest := items[0], items[1..];
      CharIs(StartOf(item));
      if item.Span? {
        CharIs(item.last);
      }
      ItemsAreOk(rest, dash, item.One?);
      assert rest != [] ==> rest[|rest| - 1] == items[|items| - 1];
      assert forall k :: 1 <= k < |items| ==> items[k] == rest[k - 1];
      if ItemsWritten(items, dash, afterOne) {
        assert ItemsWritten(rest, dash, item.One?);
      }
      if ItemsOk(items, dash, afterOne) {
        assert ItemsWritten(rest, dash, item.One?);
        forall k | 0 < k < |items| && StartOf(items[k]) == RawChar('-' as nat) ensures items[k - 1].Span? {
          if k > 1 {
            assert StartOf(rest[k - 1]) == RawChar('-' as nat);
          }
        }
      }
    }
  }

  lemma AtomIsOk(a: AtomText)
    ensures AtomWritten(a) <==> AtomOk(a)
  {
    hide EscapeOf, Escapable, ItemsOk, ItemWritten;
    match a
    case Escaped(c) => EscapeIs(c);
    case Bracket(negate, items, dash) => ItemsAreOk(items, dash, false);
    case _ =>
  }

  /** The patterns written with these rules are those of the reader's syntax. */
  lemma {:induction false} WrittenIsWellFormed(p: Pattern)
    ensures Written(p) <==> WellFormed(p)
    decreases p
  {
    hide AtomWritten, AtomOk, QuantifierWritten, QuantifierOk;
    match p
    case Atomic(a) => AtomIsOk(a);
    case Group(b) => WrittenIsWellFormed(b);
    case Quantified(b, q) => WrittenIsWellFormed(b); QuantifierIsOk(q);
    case Sequence(a, r) => WrittenIsWellFormed(a); WrittenIsWellFormed(r);
    case Choice(a, r) => WrittenIsWellFormed(a); WrittenIsWellFormed(r);
  }

  // ----- The same words -----

  lemma {:induction false} RangesAre(items: seq<Item>, c: CodePoint)
    requires forall k :: 0 <= k < |items| ==> ItemWritten(items[k])
    ensures |ItemRanges(items)| == |items|
    ensures forall k :: 0 <= k < |items| ==>
              (ItemRanges(items)[k].lo <= c <= ItemRanges(items)[k].hi <==> ItemMeans(items[k], c))
    decreases |items|
  {
    hide ClassCharWritten, CharOf, CharOk, CharValue;
    if items != [] {
      CharIs(StartOf(items[0]));
      if items[0].Span? {
        CharIs(items[0].last);
      }
      RangesAre(items[1..], c);
    }
  }

  lemma ClassMeans(negate: bool, items: seq<Item>, dash: bool, c: CodePoint)
    requires AtomWritten(Bracket(negate, items, dash))
    ensures Reads(SymbolOf(Bracket(negate, items, dash)), c) <==> AtomMeans(Bracket(negate, items, dash), c)
  {
    hide ItemRanges, ItemMeans, ItemWritten;
    var rs, all := ItemRanges(items), ClassRanges(items, dash);
    RangesAre(items, c);
    assert forall k :: 0 <= k < |items| ==> all[k] == rs[k];
    assert dash ==> all[|items|] == Range('-' as nat, '-' as nat);
    if k :| 0 <= k < |items| && ItemMeans(items[k], c) {
      assert all[k].lo <= c <= all[k].hi;
    }
    if k :| 0 <= k < |all| && all[k].lo <= c <= all[k].hi {
      if k < |items| {
        assert ItemMeans(items[k], c);
      }
    }
  }

  lemma AtomReads(a: AtomText, c: CodePoint)
    requires AtomWritten(a)
    ensures Reads(SymbolOf(a), c) <==> AtomMeans(a, c)
  {
    hide EscapeOf, Escapable, EscapeValue, ClassRanges, InRanges;
    match a
    case Escaped(d) => EscapeIs(d);
    case Bracket(negate, items, dash) => ClassMeans(negate, items, dash, c);
    case _ =>
  }

  ghost predicate AllIn(l: Lang, ws: seq<Word>) {
    forall k :: 0 <= k < |ws| ==> ws[k] in l
  }

  ghost predicate CutInto(l: Lang, n: nat, w: Word, ws: seq<Word>) {
    Joined(ws) == w && |ws| == n && AllIn(l, ws)
  }

  lemma OneMore(l: Lang, n: nat, u: Word, w: Word, ws: seq<Word>)
    requires u in l && CutInto(l, n, w, ws)
    ensures CutInto(l, n + 1, u + w, [u] + ws)
  {
    assert ([u] + ws)[1..] == ws;
  }

  lemma OneLess(l: Lang, n: nat, w: Word, ws: seq<Word>)
    requires n > 0 && CutInto(l, n, w, ws)
    ensures ws != [] && ws[0] in l && CutInto(l, n - 1, Joined(ws[1..]), ws[1..]) && w == ws[0] + Joined(ws[1..])
  {
  }

  /** The n-th power holds the words cut into n words of the language. */
  lemma {:induction false} PowerIs(l: Lang, n: nat, w: Word)
    ensures w in Power(l, n) <==> exists ws: seq<Word> :: CutInto(l, n, w, ws)
    decreases n
  {
    hide CutInto, Joined;
    if n == 0 {
      NoPieces(l, w);
    } else {
      if w in Power(l, n) {
        var k :| SplitsAt(l, Power(l, n - 1), w, k);
        PowerIs(l, n - 1, w[k..]);
        var ws: seq<Word> :| CutInto(l, n - 1, w[k..], ws);
        OneMore(l, n - 1, w[..k], w[k..], ws);
        assert w[..k] + w[k..] == w;
      }
      if ws: seq<Word> :| CutInto(l, n, w, ws) {
        OneLess(l, n, w, ws);
        PowerIs(l, n - 1, Joined(ws[1..]));
        CatIntro(l, Power(l, n - 1), ws[0], Joined(ws[1..]));
      }
    }
  }

  lemma NoPieces(l: Lang, w: Word)
    ensures w == [] <==> exists ws: seq<Word> :: CutInto(l, 0, w, ws)
  {
    assert CutInto(l, 0, [], []);
  }

  /** The numbers of rounds a quantifier lets through. */
  predicate Admits(q: Quantifier, n: nat) {
    match q
    case ZeroOrOne => n <= 1
    case ZeroOrMore => true
    case OneOrMore => n >= 1
    case Between(least, most) => least <= n <= most
    case AtLeast(least) => n >= least
  }

  lemma CountsIs(q: QuantifierText, n: nat)
    requires QuantifierWritten(q)
    ensures Counts(q, n) <==> Admits(QuantifierMeaning(q), n)
  {
    hide Number, NumeralFrom, NumberWritten;
    match q
    case Exactly(t) => NumberIsNumeral(t);
    case NOrMore(t) => NumberIsNumeral(t);
    case NToM(t, u) => NumberIsNumeral(t); NumberIsNumeral(u);
    case _ =>
  }

  lemma QuantifiedIs(l: Lang, q: Quantifier, w: Word)
    ensures w in QuantifiedLang(l, q) <==> exists n: nat :: Admits(q, n) && w in Power(l, n)
  {
    hide Power;
    match q
    case ZeroOrOne => assert InTimes(l, 0, 1, w) <==> exists n: nat :: Admits(q, n) && w in Power(l, n);
    case ZeroOrMore => assert InTimesOrMore(l, 0, w) <==> exists n: nat :: Admits(q, n) && w in Power(l, n);
    case OneOrMore => assert InTimesOrMore(l, 1, w) <==> exists n: nat :: Admits(q, n) && w in Power(l, n);
    case Between(a, b) => assert InTimes(l, a, b, w) <==> exists n: nat :: Admits(q, n) && w in Power(l, n);
    case AtLeast(a) => assert InTimesOrMore(l, a, w) <==> exists n: nat :: Admits(q, n) && w in Power(l, n);
  }

  lemma PiecesAre(l: Lang, q: QuantifierText, w: Word)
    requires QuantifierWritten(q)
    ensures w in QuantifiedLang(l, QuantifierMeaning(q)) <==>
            exists ws: seq<Word> :: Joined(ws) == w && Counts(q, |ws|) && AllIn(l, ws)
  {
    hide Power, QuantifiedLang, Counts, Admits, QuantifierMeaning, QuantifierWritten, Joined, AllIn;
    QuantifiedIs(l, QuantifierMeaning(q), w);
    if n: nat :| Admits(QuantifierMeaning(q), n) && w in Power(l, n) {
      PowerIs(l, n, w);
      var ws: seq<Word> :| CutInto(l, n, w, ws);
      CountsIs(q, n);
    }
    if ws: seq<Word> :| Joined(ws) == w && Counts(q, |ws|) && AllIn(l, ws) {
      PowerIs(l, |ws|, w);
      CountsIs(q, |ws|);
      assert CutInto(l, |ws|, w, ws);
      assert Admits(QuantifierMeaning(q), |ws|) && w in Power(l, |ws|);
    }
  }

  /** The language of the tree holds the words the pattern matches. */
  lemma {:induction false} LanguageIsMeaning(p: Pattern, w: Word)
    requires Written(p)
    ensures w in LangOf(TreeOf(p)) <==> Means(p, w)
    decreases p
  {
    hide Reads, AtomMeans, AtomWritten, QuantifierWritten, QuantifierMeaning, QuantifiedLang, Counts, SymbolOf;
    match p
    case Atomic(a) =>
      if |w| == 1 {
        AtomReads(a, w[0]);
      }
    case Group(b) =>
      LanguageIsMeaning(b, w);
    case Choice(a, r) =>
      LanguageIsMeaning(a, w);
      LanguageIsMeaning(r, w);
    case Sequence(a, r) =>
      forall k | 0 <= k <= |w|
        ensures w[..k] in LangOf(TreeOf(a)) <==> Means(a, w[..k])
        ensures w[k..] in LangOf(TreeOf(r)) <==> Means(r, w[k..])
      {
        LanguageIsMeaning(a, w[..k]);
        LanguageIsMeaning(r, w[k..]);
      }
      if k :| SplitsAt(LangOf(TreeOf(a)), LangOf(TreeOf(r)), w, k) {
        assert Means(a, w[..k]) && Means(r, w[k..]);
      }
      if k :| 0 <= k <= |w| && Means(a, w[..k]) && Means(r, w[k..]) {
        assert SplitsAt(LangOf(TreeOf(a)), LangOf(TreeOf(r)), w, k);
      }
    case Quantified(b, q) =>
      var l := LangOf(TreeOf(b));
      forall u: Word ensures u in l <==> Means(b, u) {
        LanguageIsMeaning(b, u);
      }
      PiecesAre(l, q, w);
      QuantifiedMeans(b, q, w, l);
  }

  lemma QuantifiedMeans(b: Pattern, q: QuantifierText, w: Word, l: Lang)
    requires Written(Quantified(b, q)) && forall u: Word :: u in l <==> Means(b, u)
    ensures Means(Quantified(b, q), w) <==> exists ws: seq<Word> :: Joined(ws) == w && Counts(q, |ws|) && AllIn(l, ws)
  {
    hide Counts, QuantifierWritten, Joined;
    if ws: seq<Word> :| Joined(ws) == w && Counts(q, |ws|) && AllIn(l, ws) {
      assert forall k :: 0 <= k < |ws| ==> Means(b, ws[k]);
    }
    if Means(Quantified(b, q), w) {
      var ws: seq<Word> :| Joined(ws) == w && Counts(q, |ws|) && forall k :: 0 <= k < |ws| ==> Means(b, ws[k]);
      assert AllIn(l, ws);
    }
  }

  lemma EndlessIs(q: QuantifierText)
    requires QuantifierWritten(q)
    ensures Endless(q) <==> Unbounded(QuantifierMeaning(q))
  {
    hide Number, NumeralFrom, NumberWritten;
    match q
    case Exactly(t) => NumberIsNumeral(t);
    case NOrMore(t) => NumberIsNumeral(t);
    case NToM(t, u) => NumberIsNumeral(u);
    case _ =>
  }

  lemma {:induction false} ProductiveIs(p: Pattern)
    requires Written(p)
    ensures Productive(p) <==> LoopsProductive(TreeOf(p))
    decreases p
  {
    hide Means, LangOf, Unbounded, Endless, QuantifierWritten, AtomWritten, QuantifierMeaning;
    match p
    case Atomic(_) =>
    case Group(b) => ProductiveIs(b);
    case Quantified(b, q) =>
      ProductiveIs(b);
      EndlessIs(q);
      LanguageIsMeaning(b, []);
    case Sequence(a, r) => ProductiveIs(a); ProductiveIs(r);
    case Choice(a, r) => ProductiveIs(a); ProductiveIs(r);
  }

  /** Compiles the written pattern and matches all of the input: the answer is what the pattern means. */
  method MatchMeans(p: Pattern, begin: bool, end: bool, input: Word) returns (matched: bool)
    requires Written(p) && Productive(p)
    ensures matched <==> Means(p, input)
  {
    hide LangOf, TreeOf, WellFormed, Means, Written, Productive, LoopsProductive;
    WrittenIsWellFormed(p);
    ProductiveIs(p);
    LanguageIsMeaning(p, input);
    matched := MatchPattern(p, begin, end, input);
  }

  /** The input holds a piece the pattern matches, at its ends where the pattern is anchored. */
  ghost predicate OccursAt(p: Pattern, begin: bool, end: bool, input: Word, k: nat, j: nat)
    requires Written(p)
  {
    k <= j <= |input| && Means(p, input[k..j]) && (begin ==> k == 0) && (end ==> j == |input|)
  }

  /** A search reports an occurrence that is not empty, or any in an empty input. */
  method SearchMeans(p: Pattern, begin: bool, end: bool, input: Word) returns (matched: bool)
    requires Written(p) && Productive(p)
    ensures matched <==> exists k, j :: OccursAt(p, begin, end, input, k, j) && (k < j || input == [])
  {
    hide LangOf, TreeOf, WellFormed, Means, Written, Productive, LoopsProductive;
    WrittenIsWellFormed(p);
    ProductiveIs(p);
    forall k: nat, j: nat ensures FoundAt(LangOf(TreeOf(p)), begin, end, input, k, j) <==> OccursAt(p, begin, end, input, k, j) {
      if k <= j <= |input| {
        LanguageIsMeaning(p, input[k..j]);
      }
    }
    matched := SearchPattern(p, begin, end, input);
  }
}
