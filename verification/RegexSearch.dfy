/** GenericRegexSearch of internal/regex.h: simulation of the state graph with two state lists and a bit set. */
module RegexSearch {
  import opened RegexLanguage
  import opened RegexGraph
  import opened RegexFragments
  import opened RegexPattern
  import opened RegexCompiler
  import opened RegexSimulation

  // ----- Bit sets in 32-bit words -----

  function OneBit(k: bv5): bv32 {
    (1 as bv32) << k
  }

  function And(a: bv32, b: bv32): bv32 {
    a & b
  }

  function Join(a: bv32, b: bv32): bv32 {
    a | b
  }

  predicate Meet(a: bv32, b: bv32) {
    And(a, b) != 0
  }

  predicate HasBit(word: bv32, k: bv5) {
    Meet(word, OneBit(k))
  }

  function AddBit(word: bv32, k: bv5): bv32 {
    Join(word, OneBit(k))
  }

  lemma AndJoin(word: bv32, a: bv32, b: bv32)
    ensures And(Join(word, a), b) == Join(And(word, b), And(a, b))
  {
  }

  lemma JoinNonzero(a: bv32, b: bv32)
    ensures Join(a, b) != 0 <==> a != 0 || b != 0
  {
  }

  lemma MeetJoin(word: bv32, a: bv32, b: bv32)
    ensures Meet(Join(word, a), b) <==> Meet(a, b) || Meet(word, b)
  {
    hide And, Join;
    AndJoin(word, a, b);
    JoinNonzero(And(word, b), And(a, b));
  }

  lemma BitsMeet(k: bv5, l: bv5)
    ensures Meet(OneBit(k), OneBit(l)) <==> k == l
  {
  }

  lemma OrBit(word: bv32, k: bv5, l: bv5)
    ensures HasBit(AddBit(word, k), l) <==> k == l || HasBit(word, l)
  {
    hide Meet, Join, OneBit;
    MeetJoin(word, OneBit(k), OneBit(l));
    BitsMeet(k, l);
  }

  lemma BitPosition(i: nat)
    requires i < 32
    ensures (i as bv5) as nat == i
  {
  }

  predicate Holds(word: bv32, index: nat) {
    HasBit(word, (index % 32) as bv5)
  }

  function Add(word: bv32, index: nat): bv32 {
    AddBit(word, (index % 32) as bv5)
  }

  predicate BitSet(words: seq<bv32>, index: nat) {
    index / 32 < |words| && Holds(words[index / 32], index)
  }

  lemma MaskBits(w: bv32, i: nat, j: nat)
    ensures Holds(Add(w, i), j) <==> i % 32 == j % 32 || Holds(w, j)
  {
    hide HasBit, AddBit;
    BitPosition(i % 32);
    BitPosition(j % 32);
    OrBit(w, (i % 32) as bv5, (j % 32) as bv5);
  }

  function WithBit(words: seq<bv32>, i: nat): seq<bv32>
    requires i / 32 < |words|
  {
    words[i / 32 := Add(words[i / 32], i)]
  }

  lemma SetBit(words: seq<bv32>, i: nat, j: nat)
    requires i / 32 < |words|
    ensures BitSet(WithBit(words, i), j) <==> i == j || BitSet(words, j)
  {
    if i / 32 == j / 32 {
      MaskBits(words[i / 32], i, j);
      assert i % 32 == j % 32 ==> i == j;
    }
  }

  lemma SetBitEverywhere(words: seq<bv32>, i: nat)
    requires i / 32 < |words|
    ensures forall j: nat :: BitSet(WithBit(words, i), j) <==> i == j || BitSet(words, j)
  {
    forall j: nat ensures BitSet(WithBit(words, i), j) <==> i == j || BitSet(words, j) {
      SetBit(words, i, j);
    }
  }

  // ----- State lists -----

  function Elements(l: seq<int>): set<int> {
    set x | x in l
  }

  predicate Distinct(l: seq<int>) {
    forall i, j :: 0 <= i < j < |l| ==> l[i] != l[j]
  }

  lemma {:induction false} DistinctLength(l: seq<int>, n: nat)
    requires Distinct(l) && forall x :: x in l ==> 0 <= x < n
    ensures |l| <= n
  {
    Cardinality(l);
    assert Elements(l) <= UpTo(n);
    SubsetSize(Elements(l), UpTo(n));
  }

  lemma {:induction false} Cardinality(l: seq<int>)
    requires Distinct(l)
    ensures |Elements(l)| == |l|
  {
    if l != [] {
      var front := l[..|l| - 1];
      Cardinality(front);
      assert Elements(l) == Elements(front) + {l[|l| - 1]};
    }
  }

  function UpTo(n: nat): (s: set<int>)
    ensures |s| == n && forall x :: x in s <==> 0 <= x < n
  {
    if n == 0 then {} else UpTo(n - 1) + {n - 1}
  }

  lemma SubsetSize(a: set<int>, b: set<int>)
    requires a <= b
    ensures |a| <= |b|
  {
    assert b == a + (b - a);
  }

  // ----- What a search reports -----

  ghost predicate FoundAt(a: Lang, anchorBegin: bool, anchorEnd: bool, text: Word, k: int, j: int) {
    && 0 <= k <= j <= |text|
    && (anchorBegin ==> k == 0)
    && (anchorEnd ==> j == |text|)
    && text[k..j] in a
  }

  /** A factor of the text, at the anchored ends, is in the language. */
  ghost predicate Occurs(a: Lang, anchorBegin: bool, anchorEnd: bool, text: Word) {
    exists k, j :: FoundAt(a, anchorBegin, anchorEnd, text, k, j)
  }

  /** The same, but an empty factor counts only in an empty text. */
  ghost predicate Reported(a: Lang, anchorBegin: bool, anchorEnd: bool, text: Word) {
    exists k, j :: FoundAt(a, anchorBegin, anchorEnd, text, k, j) && (k < j || text == [])
  }

  /** With both anchors, as in Match(), nothing is lost. */
  lemma AnchoredReports(a: Lang, text: Word)
    ensures Reported(a, true, true, text) <==> text in a
  {
    assert text[0..|text|] == text;
    if text in a {
      assert FoundAt(a, true, true, text, 0, |text|);
    }
  }

  /**
   * A search without both anchors misses exactly the empty matches in a non-empty text: the first character
   * overwrites what adding the start state answered, and the answers of adding it again are dropped.
   */
  lemma UnanchoredMisses(a: Lang, anchorBegin: bool, anchorEnd: bool, text: Word)
    requires !anchorBegin || !anchorEnd
    ensures Occurs(a, anchorBegin, anchorEnd, text) <==> Reported(a, anchorBegin, anchorEnd, text) || [] in a
    ensures [] !in a || text == [] ==>
              (Occurs(a, anchorBegin, anchorEnd, text) <==> Reported(a, anchorBegin, anchorEnd, text))
  {
    if [] in a {
      var k := if anchorEnd then |text| else 0;
      assert text[k..k] == [];
      assert FoundAt(a, anchorBegin, anchorEnd, text, k, k);
    }
    if Occurs(a, anchorBegin, anchorEnd, text) {
      var k, j :| FoundAt(a, anchorBegin, anchorEnd, text, k, j);
      if k == j {
        assert text[k..j] == [];
      }
    }
  }

  /** The pattern `a*` occurs in every text, but the search of "b" reports nothing. */
  lemma StarMissesEmptyMatch()
    ensures Occurs(LangOf(Repeat(Sym(Literal('a' as nat)), ZeroOrMore)), false, false, ['b' as nat])
    ensures !Reported(LangOf(Repeat(Sym(Literal('a' as nat)), ZeroOrMore)), false, false, ['b' as nat])
  {
    var a := SymbolLang(Literal('a' as nat));
    var e := LangOf(Repeat(Sym(Literal('a' as nat)), ZeroOrMore));
    assert LangOf(Sym(Literal('a' as nat))) == a;
    assert e == TimesOrMore(a, 0);
    var text: Word, none: Word := ['b' as nat], [];
    assert none in Power(a, 0);
    assert text[0..0] == none;
    assert FoundAt(e, false, false, text, 0, 0);
  }

  // ----- The search -----

  /** The states one firing state adds. */
  ghost function Fired(g: Graph, i: int, c: CodePoint): set<int>
    requires Simulable(g) && 0 <= i < |g.states|
  {
    if Fires(g, i, c) then Closure(g, g.states[i].out) else {}
  }

  ghost predicate HasMatch(g: Graph, s: set<int>) {
    exists m :: m in s && 0 <= m < |g.states| && g.states[m].out == INVALID
  }

  lemma MovedAdds(g: Graph, s: set<int>, i: int, c: CodePoint)
    requires Simulable(g) && States(g, s) && States(g, {i}) && 0 <= i < |g.states|
    ensures States(g, s + {i})
    ensures Moved(g, s + {i}, c) == Moved(g, s, c) + Fired(g, i, c)
    ensures Hits(g, s + {i}, c) <==> Hits(g, s, c) || HasMatch(g, Fired(g, i, c))
  {
    assert i in {i};
    forall m
      ensures m in Moved(g, s + {i}, c) <==> m in Moved(g, s, c) || m in Fired(g, i, c)
    {
      MovedFrom(g, s, c, |g.states|, m);
      MovedFrom(g, s + {i}, c, |g.states|, m);
    }
  }

  lemma StatesPrefix(g: Graph, l: seq<int>, k: nat)
    requires States(g, Elements(l)) && k < |l|
    ensures States(g, Elements(l[..k])) && States(g, {l[k]}) && 0 <= l[k] < |g.states|
    ensures Elements(l[..k + 1]) == Elements(l[..k]) + {l[k]}
  {
    assert l[k] in Elements(l);
    forall i | i in Elements(l[..k]) ensures i in Elements(l) {
    }
  }

  lemma ActiveStep(g: Graph, root: int, anchorBegin: bool, text: Word, p: nat)
    requires Simulable(g) && 0 <= root < |g.states| && p < |text|
    ensures Active(g, root, anchorBegin, text[..p + 1]) ==
            Next(g, Active(g, root, anchorBegin, text[..p]), text[p], root, anchorBegin)
  {
    assert text[..p + 1][..p] == text[..p];
  }

  lemma HitsGrows(g: Graph, s: set<int>, t: set<int>, c: CodePoint)
    requires Simulable(g) && States(g, s) && States(g, t) && s <= t
    requires Hits(g, s, c)
    ensures Hits(g, t, c)
  {
    var m :| m in Moved(g, s, c) && 0 <= m < |g.states| && g.states[m].out == INVALID;
    MovedFrom(g, s, c, |g.states|, m);
    MovedFrom(g, t, c, |g.states|, m);
  }

  /** Some match that begins before `p` ends at `p`. */
  ghost predicate EndsAt(a: Lang, anchorBegin: bool, text: Word, p: nat) {
    p <= |text| && exists k :: 0 <= k < p && (anchorBegin ==> k == 0) && text[k..p] in a
  }

  /** The flag the loop keeps, after `p` characters. */
  ghost predicate Flag(a: Lang, anchorBegin: bool, text: Word, p: nat) {
    if p == 0 then [] in a else EndsAt(a, anchorBegin, text, p)
  }

  lemma HitsEndsAt(g: Graph, root: int, anchorBegin: bool, text: Word, p: nat)
    requires Simulable(g) && 0 <= root < |g.states| && p < |text|
    ensures Hits(g, Active(g, root, anchorBegin, text[..p]), text[p]) <==> EndsAt(Language(g, root), anchorBegin, text, p + 1)
  {
    HitsMeaning(g, root, anchorBegin, text[..p], text[p]);
    forall k | 0 <= k <= p ensures (text[..p] + [text[p]])[k..] == text[k..p + 1] {
    }
    if EndsAt(Language(g, root), anchorBegin, text, p + 1) {
      var k :| 0 <= k < p + 1 && (anchorBegin ==> k == 0) && text[k..p + 1] in Language(g, root);
      assert Accepts(g, root, (text[..p] + [text[p]])[k..]);
    }
  }

  lemma SearchStep(g: Graph, root: int, anchorBegin: bool, anchorEnd: bool, text: Word, p: nat)
    requires Simulable(g) && 0 <= root < |g.states| && p < |text|
    requires Unseen(Language(g, root), anchorBegin, anchorEnd, text, p)
    ensures Active(g, root, anchorBegin, text[..p + 1]) ==
            Next(g, Active(g, root, anchorBegin, text[..p]), text[p], root, anchorBegin)
    ensures Hits(g, Active(g, root, anchorBegin, text[..p]), text[p]) <==> Flag(Language(g, root), anchorBegin, text, p + 1)
    ensures anchorEnd || !Hits(g, Active(g, root, anchorBegin, text[..p]), text[p]) ==>
              Unseen(Language(g, root), anchorBegin, anchorEnd, text, p + 1)
  {
    HitsEndsAt(g, root, anchorBegin, text, p);
    ActiveStep(g, root, anchorBegin, text, p);
  }

  /** A search that may stop early has seen no match end by `p`. */
  ghost predicate Unseen(a: Lang, anchorBegin: bool, anchorEnd: bool, text: Word, p: nat) {
    !anchorEnd ==> forall j: nat :: j <= p ==> !EndsAt(a, anchorBegin, text, j)
  }

  lemma StartFlag(g: Graph, root: int)
    requires Simulable(g) && 0 <= root < |g.states|
    ensures [] in Language(g, root) <==>
            HasMatch(g, Closure(g, root))
  {
    ClosureAccepts(g, root, []);
    forall m | m in Closure(g, root) ensures g.states[m].out == INVALID <==> Accepts(g, m, []) {
      LeafAccepts(g, m, []);
    }
  }

  /** Once no state is active, no match ends here or later. */
  lemma NothingActive(g: Graph, root: int, anchorBegin: bool, text: Word, p: nat, j: nat)
    requires Simulable(g) && 0 <= root < |g.states| && p <= j <= |text|
    requires Active(g, root, anchorBegin, text[..p]) == {}
    ensures !EndsAt(Language(g, root), anchorBegin, text, j) && anchorBegin && p > 0
  {
    ActiveMeaning(g, root, anchorBegin, text[..p], text[p..j]);
    ClosureAccepts(g, root, []);
    if EndsAt(Language(g, root), anchorBegin, text, j) {
      assert text[..p][0..] + text[p..j] == text[0..j];
      assert StartsAt(g, root, anchorBegin, text[..p], text[p..j], 0);
    }
  }

  lemma SearchEnds(g: Graph, root: int, anchorBegin: bool, anchorEnd: bool, text: Word, p: nat)
    requires Simulable(g) && 0 <= root < |g.states| && p <= |text|
    requires p < |text| ==> Active(g, root, anchorBegin, text[..p]) == {}
    requires Unseen(Language(g, root), anchorBegin, anchorEnd, text, p)
    ensures anchorEnd || text == [] ==>
              (Flag(Language(g, root), anchorBegin, text, p) <==> Flag(Language(g, root), anchorBegin, text, |text|))
    ensures !anchorEnd ==> forall j: nat :: !EndsAt(Language(g, root), anchorBegin, text, j)
    ensures p == 0 ==> text == []
  {
    if p < |text| {
      forall j: nat | p <= j <= |text| ensures !EndsAt(Language(g, root), anchorBegin, text, j) && p > 0 {
        NothingActive(g, root, anchorBegin, text, p, j);
      }
      assert p <= p <= |text| && !EndsAt(Language(g, root), anchorBegin, text, p);
      assert p <= |text| <= |text| && !EndsAt(Language(g, root), anchorBegin, text, |text|);
    }
  }

  lemma ReportedIs(a: Lang, anchorBegin: bool, anchorEnd: bool, text: Word)
    ensures anchorEnd ==> (Reported(a, anchorBegin, true, text) <==> Flag(a, anchorBegin, text, |text|))
    ensures !anchorEnd && text != [] ==>
              (Reported(a, anchorBegin, false, text) <==> exists j: nat :: EndsAt(a, anchorBegin, text, j))
    ensures text == [] ==> (Reported(a, anchorBegin, anchorEnd, text) <==> [] in a)
  {
    if text == [] {
      assert text[0..0] == [];
      if [] in a {
        assert FoundAt(a, anchorBegin, anchorEnd, text, 0, 0);
      }
    } else {
      if Reported(a, anchorBegin, anchorEnd, text) {
        var k, j :| FoundAt(a, anchorBegin, anchorEnd, text, k, j) && k < j;
        assert EndsAt(a, anchorBegin, text, j);
      }
      if anchorEnd && EndsAt(a, anchorBegin, text, |text|) {
        var k :| 0 <= k < |text| && (anchorBegin ==> k == 0) && text[k..|text|] in a;
        assert FoundAt(a, anchorBegin, anchorEnd, text, k, |text|);
      }
      if !anchorEnd && exists j: nat :: EndsAt(a, anchorBegin, text, j) {
        var j: nat :| EndsAt(a, anchorBegin, text, j);
        var k :| 0 <= k < j && (anchorBegin ==> k == 0) && text[k..j] in a;
        assert FoundAt(a, anchorBegin, anchorEnd, text, k, j);
      }
    }
  }

  class GenericRegexSearch {
    const regex: GenericRegex
    const stateSet: array<bv32>
    ghost const e: Regex
    ghost const g: Graph
    ghost const root: int

    ghost predicate Valid()
      reads this, regex
    {
      && regex.Ready(e)
      && g == Graph(regex.states, regex.syms, {}) && root == regex.root
      && Simulable(g) && Language(g, root) == LangOf(e)
      && stateSet.Length == (|g.states| + 31) / 32
    }

    constructor (regex: GenericRegex, ghost e: Regex)
      requires regex.Ready(e) && LoopsProductive(e)
      ensures Valid() && this.regex == regex && this.e == e && fresh(stateSet)
    {
      this.regex := regex;
      this.e, root := e, regex.root;
      g := Graph(regex.states, regex.syms, {});
      stateSet := new bv32[(|regex.states| + 31) / 32];
    }

    /** The state list `l` holds each of its states once, and the bit set knows which. */
    ghost predicate Listed(l: seq<int>)
      reads this, regex, stateSet
    {
      && Distinct(l)
      && (forall x :: x in l ==> 0 <= x < |g.states|)
      && forall x: nat :: x < |g.states| ==> (BitSet(stateSet[..], x) <==> x in l)
    }

    method ClearStateSet()
      requires Valid()
      modifies stateSet
      ensures Listed([])
    {
      var i := 0;
      while i < stateSet.Length
        invariant 0 <= i <= stateSet.Length
        invariant forall k :: 0 <= k < i ==> stateSet[k] == 0
      {
        stateSet[i] := 0;
        i := i + 1;
      }
      forall x: nat ensures !BitSet(stateSet[..], x) {
        if x / 32 < stateSet.Length {
          assert stateSet[..][x / 32] == 0;
        }
      }
    }

    /** Tests and sets one bit. */
    method Mark(index: nat) returns (found: bool)
      requires index / 32 < stateSet.Length
      modifies stateSet
      ensures found <==> BitSet(old(stateSet[..]), index)
      ensures forall x: nat :: BitSet(stateSet[..], x) <==> x == index || BitSet(old(stateSet[..]), x)
    {
      hide Holds, Add;
      found := Holds(stateSet[index / 32], index);
      if !found {
        SetBitEverywhere(stateSet[..], index);
        stateSet[index / 32] := Add(stateSet[index / 32], index);
        assert stateSet[..] == WithBit(old(stateSet[..]), index);
      }
    }

    /** Appends a state unless the bit set says it is there; the list never outgrows the number of states. */
    method Insert(l: seq<int>, index: int) returns (l': seq<int>)
      requires Valid() && Listed(l) && 0 <= index < |g.states|
      modifies stateSet
      ensures Listed(l') && |l'| <= |g.states|
      ensures Elements(l') == Elements(l) + {index}
    {
      l' := l;
      var found := Mark(index);
      if !found {
        l' := l' + [index];
      }
      DistinctLength(l', |g.states|);
    }

    /** Adds the non-split states reached from `index`; the list never outgrows the number of states. */
    method AddState(l: seq<int>, index: int, ghost fuel: nat) returns (matched: bool, l': seq<int>)
      requires Valid() && Listed(l) && Halts(g, fuel, index)
      modifies stateSet
      decreases fuel
      ensures Listed(l') && |l'| <= |g.states|
      ensures Elements(l') == Elements(l) + Leaves(g, fuel, index)
      ensures matched <==> HasMatch(g, Leaves(g, fuel, index))
    {
      var s := regex.states[index];
      l' := l;
      if s.out1 != INVALID {
        var m1, m2;
        m1, l' := AddState(l', s.out, fuel - 1);
        m2, l' := AddState(l', s.out1, fuel - 1);
        matched := m2 || m1;
      } else {
        l' := Insert(l', index);
        matched := s.out == INVALID;
      }
    }

    method MatchRange(rangeIndex: int, codepoint: CodePoint, ghost negate: bool, ghost rs: seq<Range>) returns (yes: bool)
      requires ClassCells(regex.ranges, rangeIndex, negate, rs)
      ensures yes <==> RegexLanguage.Reads(Class(negate, rs), codepoint)
    {
      ghost var r0 := rs[0];
      assert regex.ranges[rangeIndex + 0] == regex.ranges[rangeIndex];
      yes := regex.ranges[rangeIndex].start < RANGE_NEGATION_FLAG;
      assert yes == !negate;
      var r, k := rangeIndex, 0;
      while r != INVALID
        invariant 0 <= k <= |rs|
        invariant r == if k < |rs| then rangeIndex + k else INVALID
        invariant forall i :: 0 <= i < k ==> !(rs[i].lo <= codepoint <= rs[i].hi)
        decreases |rs| - k
      {
        var cell := regex.ranges[rangeIndex + k];
        ghost var x := rs[k];
        if cell.start % RANGE_NEGATION_FLAG <= codepoint <= cell.end {
          return;
        }
        r, k := cell.next, k + 1;
      }
      yes := !yes;
    }

    /** Whether a listed state reads `codepoint`. */
    method StateReads(index: int, codepoint: CodePoint) returns (yes: bool)
      requires Valid() && 0 <= index < |g.states|
      ensures yes <==> RegexLanguage.Reads(regex.syms[index], codepoint)
    {
      var s := regex.states[index];
      ghost var sym := regex.syms[index];
      assert Spells(s, regex.ranges, sym);
      yes := s.codepoint == codepoint || s.codepoint == ANY_CHARACTER_CLASS;
      if !yes && s.codepoint == RANGE_CHARACTER_CLASS {
        yes := MatchRange(s.rangeStart, codepoint, sym.negate, sym.ranges);
      }
    }

    /** AddState with the list described as a set of states. */
    method AddClosure(l: seq<int>, index: int) returns (matched: bool, l': seq<int>)
      requires Valid() && Listed(l) && 0 <= index < |g.states|
      modifies stateSet
      ensures Listed(l') && |l'| <= |g.states|
      ensures Elements(l') == Elements(l) + Closure(g, index)
      ensures matched <==> HasMatch(g, Closure(g, index))
    {
      assert Halting(g, index);
      ghost var fuel: nat :| Halts(g, fuel, index);
      ClosureIs(g, fuel, index);
      matched, l' := AddState(l, index, fuel);
    }

    /** One listed state: what it fires goes to `next`, and so does the start state when the search is not anchored. */
    method Visit(next: seq<int>, s: int, codepoint: CodePoint, anchorBegin: bool, anchorEnd: bool, ghost seen: set<int>)
      returns (hit: bool, next': seq<int>)
      requires Valid() && Listed(next)
      requires States(g, seen) && States(g, {s}) && 0 <= s < |g.states|
      requires Elements(next) == Next(g, seen, codepoint, root, anchorBegin)
      modifies stateSet
      ensures States(g, seen + {s})
      ensures hit <==> HasMatch(g, Fired(g, s, codepoint))
      ensures Listed(next')
      ensures !hit || anchorEnd ==>
                Elements(next') == Next(g, seen + {s}, codepoint, root, anchorBegin)
    {
      MovedAdds(g, seen, s, codepoint);
      hit, next' := false, next;
      assert s in {s};
      var fires := StateReads(s, codepoint);
      if fires {
        hit, next' := AddClosure(next', regex.states[s].out);
        if !anchorEnd && hit {
          return;
        }
      }
      assert Elements(next') == Elements(next) + Fired(g, s, codepoint);
      if !anchorBegin {
        var forgotten;
        forgotten, next' := AddClosure(next', regex.root);
      }
    }

    /** One character: from the list `current` to the list of the next states. */
    method Advance(current: seq<int>, codepoint: CodePoint, anchorBegin: bool, anchorEnd: bool)
      returns (matched: bool, next: seq<int>)
      requires Valid() && States(g, Elements(current))
      modifies stateSet
      ensures matched <==> Hits(g, Elements(current), codepoint)
      ensures !matched || anchorEnd ==>
                Elements(next) == Next(g, Elements(current), codepoint, root, anchorBegin)
    {
      hide Moved;
      ClearStateSet();
      next, matched := [], false;
      assert Elements(current[..0]) == {};
      NextOfNone(g, codepoint, root, anchorBegin);
      var k := 0;
      while k < |current|
        invariant 0 <= k <= |current|
        invariant Listed(next) && States(g, Elements(current[..k]))
        invariant Elements(next) == Next(g, Elements(current[..k]), codepoint, root, anchorBegin)
        invariant matched <==> Hits(g, Elements(current[..k]), codepoint)
      {
        StatesPrefix(g, current, k);
        MovedAdds(g, Elements(current[..k]), current[k], codepoint);
        var hit;
        hit, next := Visit(next, current[k], codepoint, anchorBegin, anchorEnd, Elements(current[..k]));
        matched := hit || matched;
        if !anchorEnd && matched {
          HitsGrows(g, Elements(current[..k + 1]), Elements(current), codepoint);
          return;
        }
        k := k + 1;
      }
      assert current[..k] == current;
    }

    /** Reports a factor of the text that is in the pattern's language, at the anchored ends. */
    method SearchWithAnchoring(text: Word, anchorBegin: bool, anchorEnd: bool) returns (matched: bool)
      requires Valid()
      modifies stateSet
      ensures matched <==> Reported(LangOf(e), anchorBegin, anchorEnd, text)
    {
      hide Moved;
      ghost var a := LangOf(e);
      var current;
      ClearStateSet();
      matched, current := AddClosure([], regex.root);
      var p := 0;
      assert text[..0] == [];
      StartFlag(g, root);
      while |current| > 0 && p < |text|
        invariant p <= |text| && Elements(current) == Active(g, root, anchorBegin, text[..p])
        invariant matched <==> Flag(a, anchorBegin, text, p)
        invariant Unseen(a, anchorBegin, anchorEnd, text, p)
        decreases |text| - p
      {
        matched, current := Advance(current, text[p], anchorBegin, anchorEnd);
        SearchStep(g, root, anchorBegin, anchorEnd, text, p);
        p := p + 1;
        if !anchorEnd && matched {
          break;
        }
      }
      if anchorEnd || !matched || p == 0 {
        assert p < |text| ==> Elements(current) == {};
        SearchEnds(g, root, anchorBegin, anchorEnd, text, p);
      }
      ReportedIs(a, anchorBegin, anchorEnd, text);
    }

    method Match(text: Word) returns (matched: bool)
      requires Valid()
      modifies stateSet
      ensures matched <==> text in LangOf(e)
    {
      matched := SearchWithAnchoring(text, true, true);
      AnchoredReports(LangOf(e), text);
    }

    method Search(text: Word) returns (matched: bool)
      requires Valid()
      modifies stateSet
      ensures matched <==> Reported(LangOf(e), regex.anchorBegin, regex.anchorEnd, text)
    {
      matched := SearchWithAnchoring(text, regex.anchorBegin, regex.anchorEnd);
    }
  }
}
