/** Regular patterns as trees, and the language each tree denotes. */
module RegexLanguage {
  /** A decoded code point: the decoding stream ends the text at the first 0. */
  type CodePoint = c: nat | 0 < c <= 0x10FFFF witness 1

  type Word = seq<CodePoint>

  type Lang = iset<Word>

  datatype Range = Range(lo: nat, hi: nat)

  /** What one input code point may be: a literal, '.', or a bracket class. */
  datatype Symbol =
    | Literal(c: nat)
    | AnyChar
    | Class(negate: bool, ranges: seq<Range>)

  predicate Reads(s: Symbol, c: CodePoint) {
    match s
    case Literal(d) => c == d
    case AnyChar => true
    case Class(negate, ranges) => InRanges(ranges, c) != negate
  }

  predicate InRanges(ranges: seq<Range>, c: CodePoint) {
    exists k :: 0 <= k < |ranges| && ranges[k].lo <= c <= ranges[k].hi
  }

  datatype Quantifier =
    | ZeroOrOne
    | ZeroOrMore
    | OneOrMore
    | Between(least: nat, most: nat)
    | AtLeast(least: nat)

  datatype Regex =
    | Sym(s: Symbol)
    | Then(first: Regex, second: Regex)
    | Or(left: Regex, right: Regex)
    | Repeat(body: Regex, q: Quantifier)

  // ----- Operations on languages -----

  ghost function SymbolLang(s: Symbol): Lang {
    iset w: Word | |w| == 1 && Reads(s, w[0])
  }

  ghost predicate SplitsAt(a: Lang, b: Lang, w: Word, k: int) {
    0 <= k <= |w| && w[..k] in a && w[k..] in b
  }

  ghost predicate InCat(a: Lang, b: Lang, w: Word) {
    exists k :: SplitsAt(a, b, w, k)
  }

  ghost function Cat(a: Lang, b: Lang): Lang {
    iset w: Word | InCat(a, b, w)
  }

  ghost function Opt(a: Lang): Lang {
    a + iset{[]}
  }

  ghost function Power(a: Lang, n: nat): Lang {
    if n == 0 then iset{[]} else Cat(a, Power(a, n - 1))
  }

  /** Words made of at least `least` and at most `most` words of `a`. */
  ghost function Times(a: Lang, least: nat, most: nat): Lang {
    iset w: Word | InTimes(a, least, most, w)
  }

  ghost predicate InTimes(a: Lang, least: nat, most: nat, w: Word) {
    exists k: nat :: least <= k <= most && w in Power(a, k)
  }

  ghost function TimesOrMore(a: Lang, least: nat): Lang {
    iset w: Word | InTimesOrMore(a, least, w)
  }

  ghost predicate InTimesOrMore(a: Lang, least: nat, w: Word) {
    exists k: nat :: least <= k && w in Power(a, k)
  }

  ghost function QuantifiedLang(a: Lang, q: Quantifier): Lang {
    match q
    case ZeroOrOne => Times(a, 0, 1)
    case ZeroOrMore => TimesOrMore(a, 0)
    case OneOrMore => TimesOrMore(a, 1)
    case Between(n, m) => Times(a, n, m)
    case AtLeast(n) => TimesOrMore(a, n)
  }

  ghost function LangOf(e: Regex): Lang {
    match e
    case Sym(s) => SymbolLang(s)
    case Then(e1, e2) => Cat(LangOf(e1), LangOf(e2))
    case Or(e1, e2) => LangOf(e1) + LangOf(e2)
    case Repeat(e1, q) => QuantifiedLang(LangOf(e1), q)
  }

  /** `a` repeated `n` times in front of `b`, nested to the right. */
  ghost function Prefixed(a: Lang, n: nat, b: Lang): Lang {
    if n == 0 then b else Cat(a, Prefixed(a, n - 1, b))
  }

  predicate Unbounded(q: Quantifier) {
    q.ZeroOrMore? || q.OneOrMore? || q.AtLeast?
  }

  /** No operand of `*`, `+` or `{n,}` can match the empty word. */
  ghost predicate LoopsProductive(e: Regex) {
    match e
    case Sym(_) => true
    case Then(e1, e2) => LoopsProductive(e1) && LoopsProductive(e2)
    case Or(e1, e2) => LoopsProductive(e1) && LoopsProductive(e2)
    case Repeat(e1, q) => LoopsProductive(e1) && (Unbounded(q) ==> [] !in LangOf(e1))
  }

  // ----- Laws the compilation of quantifiers relies on -----

  lemma CatIntro(a: Lang, b: Lang, u: Word, v: Word)
    requires u in a && v in b
    ensures u + v in Cat(a, b)
  {
    assert (u + v)[..|u|] == u && (u + v)[|u|..] == v;
    assert SplitsAt(a, b, u + v, |u|);
  }

  lemma PowerOne(a: Lang)
    ensures Power(a, 1) == a
  {
    forall w: Word ensures w in Power(a, 1) <==> w in a {
      if w in Power(a, 1) {
        var k :| SplitsAt(a, Power(a, 0), w, k);
        assert w[k..] == [] && w[..k] == w;
      }
      if w in a {
        CatIntro(a, Power(a, 0), w, []);
        assert w + [] == w;
      }
    }
  }

  /** Putting one more `a` in front shifts both bounds. */
  lemma CatTimes(a: Lang, n: nat, m: nat)
    ensures Cat(a, Times(a, n, m)) == Times(a, n + 1, m + 1)
  {
    forall w: Word ensures w in Cat(a, Times(a, n, m)) <==> w in Times(a, n + 1, m + 1) {
      if w in Cat(a, Times(a, n, m)) {
        var k :| SplitsAt(a, Times(a, n, m), w, k);
        var j: nat :| n <= j <= m && w[k..] in Power(a, j);
        assert SplitsAt(a, Power(a, j), w, k);
        assert w in Power(a, j + 1);
      }
      if w in Times(a, n + 1, m + 1) {
        var j: nat :| n + 1 <= j <= m + 1 && w in Power(a, j);
        var k :| SplitsAt(a, Power(a, j - 1), w, k);
        assert SplitsAt(a, Times(a, n, m), w, k);
      }
    }
  }

  lemma CatTimesOrMore(a: Lang, n: nat)
    ensures Cat(a, TimesOrMore(a, n)) == TimesOrMore(a, n + 1)
  {
    forall w: Word ensures w in Cat(a, TimesOrMore(a, n)) <==> w in TimesOrMore(a, n + 1) {
      if w in Cat(a, TimesOrMore(a, n)) {
        var k :| SplitsAt(a, TimesOrMore(a, n), w, k);
        var j: nat :| n <= j && w[k..] in Power(a, j);
        assert SplitsAt(a, Power(a, j), w, k);
        assert w in Power(a, j + 1);
      }
      if w in TimesOrMore(a, n + 1) {
        var j: nat :| n + 1 <= j && w in Power(a, j);
        var k :| SplitsAt(a, Power(a, j - 1), w, k);
        assert SplitsAt(a, TimesOrMore(a, n), w, k);
      }
    }
  }

  lemma {:induction false} PrefixedTimes(a: Lang, k: nat, n: nat, m: nat)
    ensures Prefixed(a, k, Times(a, n, m)) == Times(a, k + n, k + m)
  {
    if k > 0 {
      PrefixedTimes(a, k - 1, n, m);
      CatTimes(a, k - 1 + n, k - 1 + m);
    }
  }

  lemma {:induction false} PrefixedTimesOrMore(a: Lang, k: nat, n: nat)
    ensures Prefixed(a, k, TimesOrMore(a, n)) == TimesOrMore(a, k + n)
  {
    if k > 0 {
      PrefixedTimesOrMore(a, k - 1, n);
      CatTimesOrMore(a, k - 1 + n);
    }
  }

  lemma OptIsTimes(a: Lang)
    ensures Opt(a) == Times(a, 0, 1)
  {
    PowerOne(a);
    forall w: Word ensures w in Opt(a) <==> w in Times(a, 0, 1) {
      if w in Opt(a) {
        assert w in Power(a, 0) || w in Power(a, 1);
      }
    }
  }

  lemma CatOptTimes(a: Lang, m: nat)
    ensures Cat(Opt(a), Times(a, 0, m)) == Times(a, 0, m + 1)
  {
    CatTimes(a, 0, m);
    forall w: Word ensures w in Cat(Opt(a), Times(a, 0, m)) <==> w in Times(a, 0, m + 1) {
      if w in Cat(Opt(a), Times(a, 0, m)) {
        var k :| SplitsAt(Opt(a), Times(a, 0, m), w, k);
        if w[..k] in a {
          assert SplitsAt(a, Times(a, 0, m), w, k);
          assert w in Times(a, 1, m + 1);
        } else {
          assert w[k..] == w;
        }
      }
      if w in Times(a, 0, m + 1) {
        var j: nat :| j <= m + 1 && w in Power(a, j);
        if j == 0 {
          assert w[..0] in Opt(a) && w[0..] == w;
          assert w in Times(a, 0, m);
          assert SplitsAt(Opt(a), Times(a, 0, m), w, 0);
        } else {
          var k :| SplitsAt(a, Power(a, j - 1), w, k);
          assert w[k..] in Times(a, 0, m);
          assert SplitsAt(Opt(a), Times(a, 0, m), w, k);
        }
      }
    }
  }

  /** `a?a?...a?` with `k + 1` factors matches up to `k + 1` words of `a`. */
  lemma {:induction false} PrefixedOpt(a: Lang, k: nat)
    ensures Prefixed(Opt(a), k, Opt(a)) == Times(a, 0, k + 1)
  {
    if k == 0 {
      OptIsTimes(a);
    } else {
      PrefixedOpt(a, k - 1);
      CatOptTimes(a, k);
    }
  }

  /** `{n,m}` with `m > n >= 1` compiles to `n` copies of `a` and `m - n` copies of `a?`. */
  lemma PrefixedBetween(a: Lang, n: nat, extra: nat)
    ensures Prefixed(a, n, Prefixed(Opt(a), extra, Opt(a))) == Times(a, n, n + extra + 1)
  {
    PrefixedOpt(a, extra);
    PrefixedTimes(a, n, 0, extra + 1);
  }

  lemma PrefixedExact(a: Lang, n: nat)
    ensures Prefixed(a, n, a) == Times(a, n + 1, n + 1)
  {
    PowerOne(a);
    assert Times(a, 1, 1) == a;
    PrefixedTimes(a, n, 1, 1);
  }

  /** `{n,}` compiles to `n - 1` copies of `a` in front of `a+`. */
  lemma PrefixedAtLeast(a: Lang, n: nat)
    ensures Prefixed(a, n, TimesOrMore(a, 1)) == TimesOrMore(a, n + 1)
  {
    PrefixedTimesOrMore(a, n, 1);
  }
}
