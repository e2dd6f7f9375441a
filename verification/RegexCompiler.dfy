/** GenericRegex of internal/regex.h: from pattern text to a state array, by a shunting-yard reader. */
module RegexCompiler {
  import opened Options
  import opened Texts
  import opened RegexLanguage
  import opened RegexGraph
  import opened RegexFragments
  import opened RegexPattern

  const ANY_CHARACTER_CLASS: nat := 0xFFFF_FFFF
  const RANGE_CHARACTER_CLASS: nat := 0xFFFF_FFFE
  const RANGE_NEGATION_FLAG: nat := 0x8000_0000

  datatype RangeCell = RangeCell(start: nat, end: nat, next: int)

  /** The linked cells from `l` on hold the ranges of a bracket class; the first one carries the negation flag. */
  ghost predicate ClassCells(cells: seq<RangeCell>, l: int, negate: bool, rs: seq<Range>) {
    && 0 <= l && l + |rs| <= |cells| && rs != []
    && forall k {:trigger rs[k]} {:trigger cells[l + k]} :: 0 <= k < |rs| ==>
         && rs[k].lo < RANGE_NEGATION_FLAG
         && cells[l + k].start == rs[k].lo + (if negate && k == 0 then RANGE_NEGATION_FLAG else 0)
         && cells[l + k].end == rs[k].hi
         && cells[l + k].next == (if k + 1 < |rs| then l + k + 1 else INVALID)
  }

  /** How a state and the range table spell a symbol. Splits and the match state spell code point 0, which never occurs. */
  ghost predicate Spells(s: State, cells: seq<RangeCell>, sym: Symbol) {
    match sym
    case Literal(c) => s.codepoint == c <= 0x10FFFF
    case AnyChar => s.codepoint == ANY_CHARACTER_CLASS
    case Class(negate, rs) => s.codepoint == RANGE_CHARACTER_CLASS && ClassCells(cells, s.rangeStart, negate, rs)
  }

  lemma SpellsFrame(s: State, cells: seq<RangeCell>, cells': seq<RangeCell>, sym: Symbol)
    requires Spells(s, cells, sym) && cells <= cells'
    ensures Spells(s, cells', sym)
  {
    if sym.Class? {
      var rs := sym.ranges;
      forall k | 0 <= k < |rs|
        ensures cells'[s.rangeStart + k].end == rs[k].hi && cells'[s.rangeStart + k] == cells[s.rangeStart + k]
      {
      }
    }
  }

  lemma AllSpell(st: seq<State>, cells: seq<RangeCell>, cells': seq<RangeCell>, sy: seq<Symbol>)
    requires |st| == |sy| && cells <= cells'
    requires forall i :: 0 <= i < |st| ==> Spells(st[i], cells, sy[i])
    ensures forall i :: 0 <= i < |st| ==> Spells(st[i], cells', sy[i])
  {
    forall i | 0 <= i < |st| ensures Spells(st[i], cells', sy[i]) {
      SpellsFrame(st[i], cells, cells', sy[i]);
    }
  }

  function Min(a: int, b: int): int {
    if a < b then a else b
  }

  ghost function Copies(e: Regex, k: nat): seq<Regex> {
    seq(k, _ => e)
  }

  /** What `k` concatenations make of `k` copies of `x` below `y`. */
  ghost function Nested(x: Regex, k: nat, y: Regex): Regex {
    if k == 0 then y else Then(x, Nested(x, k - 1, y))
  }

  lemma {:induction false} NestedMeaning(x: Regex, k: nat, y: Regex)
    ensures LangOf(Nested(x, k, y)) == Prefixed(LangOf(x), k, LangOf(y))
    ensures LoopsProductive(Nested(x, k, y)) <==> LoopsProductive(y) && (k > 0 ==> LoopsProductive(x))
  {
    if k > 0 {
      NestedMeaning(x, k - 1, y);
    }
  }

  /** The tree EvalQuantifier really builds for `e{n,m}`. */
  ghost function Expanded(e: Regex, n: nat, m: nat): Regex
    requires n <= m && m > 0
  {
    var o := Repeat(e, ZeroOrOne);
    if n == 0 then
      if m == INFINITY then Repeat(e, ZeroOrMore) else Nested(o, m - 1, o)
    else if m == INFINITY then Nested(e, n - 1, Repeat(e, OneOrMore))
    else if m > n then Nested(e, n - 1, Then(e, Nested(o, m - n - 1, o)))
    else Nested(e, n - 1, e)
  }

  lemma NestedOptional(e: Regex, k: nat)
    ensures LangOf(Nested(Repeat(e, ZeroOrOne), k, Repeat(e, ZeroOrOne))) == Times(LangOf(e), 0, k + 1)
    ensures LangOf(Nested(Repeat(e, ZeroOrOne), k, Repeat(e, ZeroOrOne))) == Prefixed(Opt(LangOf(e)), k, Opt(LangOf(e)))
    ensures LoopsProductive(Nested(Repeat(e, ZeroOrOne), k, Repeat(e, ZeroOrOne))) <==> LoopsProductive(e)
  {
    var o := Repeat(e, ZeroOrOne);
    OptIsTimes(LangOf(e));
    assert LangOf(o) == Opt(LangOf(e));
    NestedMeaning(o, k, o);
    PrefixedOpt(LangOf(e), k);
  }

  lemma NestedBetween(e: Regex, n: nat, m: nat)
    requires 0 < n < m
    ensures LangOf(Nested(e, n - 1, Then(e, Nested(Repeat(e, ZeroOrOne), m - n - 1, Repeat(e, ZeroOrOne)))))
            == Times(LangOf(e), n, m)
    ensures LoopsProductive(Nested(e, n - 1, Then(e, Nested(Repeat(e, ZeroOrOne), m - n - 1, Repeat(e, ZeroOrOne)))))
            <==> LoopsProductive(e)
  {
    var tail := Nested(Repeat(e, ZeroOrOne), m - n - 1, Repeat(e, ZeroOrOne));
    NestedOptional(e, m - n - 1);
    NestedMeaning(e, n - 1, Then(e, tail));
    PrefixedThen(LangOf(e), n - 1, LangOf(tail));
    PrefixedBetween(LangOf(e), n, m - n - 1);
  }

  /** Expanding a quantifier by cloning keeps its language, and its productivity. */
  lemma ExpandedMeaning(e: Regex, n: nat, m: nat)
    requires n <= m && m > 0
    ensures LangOf(Expanded(e, n, m)) == LangOf(Repeat(e, QuantifierOf(n, m)))
    ensures LoopsProductive(Expanded(e, n, m)) <==> LoopsProductive(Repeat(e, QuantifierOf(n, m)))
  {
    if n == 0 {
      if m != INFINITY {
        NestedOptional(e, m - 1);
      }
    } else if m == INFINITY {
      NestedMeaning(e, n - 1, Repeat(e, OneOrMore));
      PrefixedAtLeast(LangOf(e), n - 1);
    } else if m > n {
      NestedBetween(e, n, m);
    } else {
      NestedMeaning(e, n - 1, e);
      PrefixedExact(LangOf(e), n - 1);
    }
  }

  lemma {:induction false} PrefixedThen(a: Lang, k: nat, b: Lang)
    ensures Prefixed(a, k, Cat(a, b)) == Prefixed(a, k + 1, b)
  {
    if k > 0 {
      PrefixedThen(a, k - 1, b);
    }
  }

  ghost function ShiftStates(st: seq<State>, c: nat): seq<State> {
    seq(|st|, k requires 0 <= k < |st| => ShiftState(st[k], c))
  }

  /** The copy loop after `j` turns. */
  ghost function PartlyCopied(st: seq<State>, from: nat, j: nat, c: nat): seq<State>
    requires from + j <= |st|
  {
    st + ShiftStates(st[from..from + j], c) + st[from + j..]
  }

  lemma CopyStep(st: seq<State>, from: nat, j: nat, c: nat)
    requires from + j < |st| == from + c
    ensures |PartlyCopied(st, from, j, c)| == |st| + c
    ensures PartlyCopied(st, from, j, c)[|st| + j] == st[from + j]
    ensures PartlyCopied(st, from, j, c)[|st| + j := ShiftState(st[from + j], c)] == PartlyCopied(st, from, j + 1, c)
  {
    var l, r := PartlyCopied(st, from, j, c), PartlyCopied(st, from, j + 1, c);
    assert l[|st| + j] == st[from + j..][0];
    forall k | 0 <= k < |st| + c ensures l[|st| + j := ShiftState(st[from + j], c)][k] == r[k] {
      if k > |st| + j {
        assert l[k] == st[from + j..][k - |st| - j] && r[k] == st[from + j + 1..][k - |st| - j - 1];
      }
    }
  }

  lemma CopyEnds(st: seq<State>, from: nat, c: nat)
    requires |st| == from + c
    ensures PartlyCopied(st, from, 0, c) == st + st[from..]
    ensures PartlyCopied(st, from, c, c) == st + ShiftStates(st[from..], c)
  {
    assert st[from..from + c] == st[from..];
  }

  lemma CopiedStates(st: seq<State>, sy: seq<Symbol>, cells: seq<RangeCell>, st': seq<State>, sy': seq<Symbol>, from: nat, c: nat)
    requires |st| == |sy| == from + c
    requires forall i :: 0 <= i < |st| ==> Spells(st[i], cells, sy[i])
    requires st' == st + ShiftStates(st[from..], c) && sy' == sy + sy[from..]
    ensures |st'| == |sy'| == |st| + c
    ensures st'[..|st|] == st && sy'[..|st|] == sy
    ensures forall i {:trigger st[i]} :: from <= i < |st| ==> st'[i + c] == ShiftState(st[i], c)
    ensures forall i {:trigger sy[i]} :: from <= i < |st| ==> sy'[i + c] == sy[i]
    ensures forall i :: 0 <= i < |st'| ==> Spells(st'[i], cells, sy'[i])
  {
    forall i | |st| <= i < |st'| ensures st'[i] == ShiftState(st[i - c], c) && sy'[i] == sy[i - c] {
      assert st[from..][i - |st|] == st[i - c] && sy[from..][i - |st|] == sy[i - c];
    }
    forall i | from <= i < |st| ensures st'[i + c] == ShiftState(st[i], c) && sy'[i + c] == sy[i] {
      assert i + c - c == i;
    }
    forall i | |st| <= i < |st'| ensures Spells(st'[i], cells, sy'[i]) {
      assert Spells(st[i - c], cells, sy[i - c]);
    }
  }

  /** The reader's three stacks, and what the proof knows of the fragments. */
  datatype Stacks = Stacks(operands: seq<Frag>, operators: seq<Operator>, atomCounts: seq<nat>)

  datatype Shadow = Shadow(trees: seq<Regex>, chains: seq<seq<int>>)

  /** Whether the reader goes on, returns without a pattern, or fails an assertion. */
  datatype Verdict = Go | Reject | Assert {
    ghost function Answer(i: nat, cfg: Config): Progress {
      match this
      case Go => Running(i, cfg)
      case Reject => Halted(Invalid)
      case Assert => Halted(AssertionFailed)
    }
  }

  class GenericRegex {
    var states: seq<State>
    var ranges: seq<RangeCell>
    var root: int
    var anchorBegin: bool
    var anchorEnd: bool
    ghost var syms: seq<Symbol>

    ghost predicate Valid()
      reads this
    {
      && |states| == |syms|
      && forall i :: 0 <= i < |states| ==> Spells(states[i], ranges, syms[i])
    }

    ghost predicate StackValid(operands: seq<Frag>, trees: seq<Regex>, chains: seq<seq<int>>)
      reads this
    {
      Valid() && StackOk(states, syms, operands, trees, chains)
    }

    /** What a finished compilation guarantees to the search. */
    ghost predicate Ready(e: Regex)
      reads this
    {
      && Valid() && Closed(states)
      && (forall i :: 0 <= i < |states| && states[i].out == INVALID ==> syms[i] == Literal(0))
      && 0 <= root < |states|
      && Language(Graph(states, syms, {}), root) == LangOf(e)
      && (AllHalt(Graph(states, syms, {}), 0, |states|) <==> LoopsProductive(e))
    }

    constructor (text: Text)
      ensures root != INVALID <==> Read(text).Compiled?
      ensures Read(text).Compiled? ==>
                && Ready(Read(text).e)
                && anchorBegin == Read(text).anchorBegin && anchorEnd == Read(text).anchorEnd
    {
      states, ranges, root := [], [], INVALID;
      anchorBegin, anchorEnd := false, false;
      syms := [];
      new;
      var done := Parse(text);
    }

    method NewState(out: int, out1: int, codepoint: nat, ghost sym: Symbol) returns (index: int)
      requires Valid() && Spells(State(out, out1, INVALID, codepoint), ranges, sym)
      modifies this`states, this`syms
      ensures Valid()
      ensures index == |old(states)|
      ensures states == old(states) + [State(out, out1, INVALID, codepoint)] && syms == old(syms) + [sym]
    {
      index := |states|;
      states := states + [State(out, out1, INVALID, codepoint)];
      syms := syms + [sym];
    }

    /** Writes `l2` into the last state of the list that starts at `l1`. */
    method Append(l1: int, l2: int, ghost chain: seq<int>) returns (head: int)
      requires Valid() && chain != [] && IsChain(states, l1, chain)
      modifies this`states
      ensures Valid() && head == l1
      ensures 0 <= chain[|chain| - 1] < |old(states)|
      ensures states == old(states)[chain[|chain| - 1] := old(states)[chain[|chain| - 1]].(out := l2)]
    {
      head := l1;
      var l := l1;
      ghost var k := 0;
      ChainSuffix(states, l1, chain, 0);
      while states[l].out != INVALID
        invariant states == old(states) && 0 <= k < |chain| && l == chain[k] && 0 <= l < |states|
        invariant states[l].out == if k + 1 < |chain| then chain[k + 1] else INVALID
        decreases |chain| - k
      {
        l := states[l].out;
        k := k + 1;
        ChainSuffix(states, l1, chain, k);
      }
      if k + 1 < |chain| {
        ChainSuffix(states, l1, chain, k + 1);
      }
      states := states[l := states[l].(out := l2)];
    }

    /** Points every state of the list that starts at `l` to state `s`. */
    method Patch(l: int, s: int, ghost chain: seq<int>)
      requires Valid() && IsChain(states, l, chain)
      modifies this`states
      ensures Valid()
      ensures PatchedStates(old(states), states, chain, s)
    {
      var cur := l;
      ghost var k := 0;
      if chain != [] {
        ChainSuffix(states, l, chain, 0);
      }
      while cur != INVALID
        invariant 0 <= k <= |chain|
        invariant cur == if k < |chain| then chain[k] else INVALID
        invariant Valid() && PatchedStates(old(states), states, chain[..k], s)
        decreases |chain| - k
      {
        ChainSuffix(old(states), l, chain, k);
        forall j | 0 <= j < k ensures chain[j] != chain[k] {
          ChainNoRepeats(old(states), l, chain, j, k);
        }
        var next := states[cur].out;
        states := states[cur := states[cur].(out := s)];
        assert chain[..k + 1] == chain[..k] + [chain[k]];
        cur, k := next, k + 1;
        if k < |chain| {
          ChainSuffix(old(states), l, chain, k);
        }
      }
      if k < |chain| {
        ChainSuffix(old(states), l, chain, k);
      }
      assert chain[..k] == chain;
    }

    method EvalConcatenation(operands: seq<Frag>, ghost trees: seq<Regex>, ghost chains: seq<seq<int>>)
      returns (operands': seq<Frag>, ghost trees': seq<Regex>, ghost chains': seq<seq<int>>)
      requires StackValid(operands, trees, chains) && |operands| >= 2
      modifies this`states
      ensures StackValid(operands', trees', chains')
      ensures EvalTrees(trees, OpConcatenation) == Trees(trees')
    {
      var n := |operands|;
      var e2, e1 := operands[n - 1], operands[n - 2];
      assert OperandOk(states, syms, operands, trees, chains, n - 2);
      assert OperandOk(states, syms, operands, trees, chains, n - 1);
      Patch(e1.out, e2.start, chains[n - 2]);
      var f := Frag(e1.start, e2.out, Min(e1.minIndex, e2.minIndex));
      operands' := operands[..n - 2] + [f];
      ghost var e, c := Then(trees[n - 2], trees[n - 1]), chains[n - 1];
      trees', chains' := trees[..n - 2] + [e], chains[..n - 2] + [c];
      ThenOk(old(states), syms, states, e1, trees[n - 2], chains[n - 2], e2, trees[n - 1], chains[n - 1]);
      StackReplace(old(states), syms, operands, trees, chains, states, syms, n - 2, f, e, c);
    }

    method EvalAlternation(operands: seq<Frag>, ghost trees: seq<Regex>, ghost chains: seq<seq<int>>)
      returns (operands': seq<Frag>, ghost trees': seq<Regex>, ghost chains': seq<seq<int>>)
      requires StackValid(operands, trees, chains) && |operands| >= 2
      modifies this`states, this`syms
      ensures StackValid(operands', trees', chains')
      ensures EvalTrees(trees, OpAlternation) == Trees(trees')
    {
      var n := |operands|;
      var e2, e1 := operands[n - 1], operands[n - 2];
      ghost var c1, c2 := chains[n - 2], chains[n - 1];
      assert OperandOk(states, syms, operands, trees, chains, n - 2);
      assert OperandOk(states, syms, operands, trees, chains, n - 1);
      var s := NewState(e1.start, e2.start, 0, Literal(0));
      ChainFrame(old(states), states, e1.out, c1);
      var l := Append(e1.out, e2.out, c1);
      var f := Frag(s, l, Min(e1.minIndex, e2.minIndex));
      operands' := operands[..n - 2] + [f];
      ghost var e, c := Or(trees[n - 2], trees[n - 1]), c1 + c2;
      trees', chains' := trees[..n - 2] + [e], chains[..n - 2] + [c];
      OrOk(old(states), old(syms), states, Literal(0), e1, trees[n - 2], c1, e2, trees[n - 1], c2, 0, INVALID);
      StackReplace(old(states), old(syms), operands, trees, chains, states, syms, n - 2, f, e, c);
    }

    method EvalOptional(operands: seq<Frag>, ghost trees: seq<Regex>, ghost chains: seq<seq<int>>)
      returns (operands': seq<Frag>, ghost trees': seq<Regex>, ghost chains': seq<seq<int>>)
      requires StackValid(operands, trees, chains) && |operands| >= 1
      modifies this`states, this`syms
      ensures StackValid(operands', trees', chains')
      ensures EvalTrees(trees, OpZeroOrOne) == Trees(trees')
    {
      var n := |operands|;
      var e0 := operands[n - 1];
      ghost var c0 := chains[n - 1];
      assert OperandOk(states, syms, operands, trees, chains, n - 1);
      var s := NewState(INVALID, e0.start, 0, Literal(0));
      ChainFrame(old(states), states, e0.out, c0);
      var l := Append(e0.out, s, c0);
      var f := Frag(s, l, e0.minIndex);
      operands' := operands[..n - 1] + [f];
      ghost var e, c := Repeat(trees[n - 1], ZeroOrOne), c0 + [s];
      trees', chains' := trees[..n - 1] + [e], chains[..n - 1] + [c];
      OptOk(old(states), old(syms), states, Literal(0), e0, trees[n - 1], c0, 0, INVALID);
      StackReplace(old(states), old(syms), operands, trees, chains, states, syms, n - 1, f, e, c);
    }

    /** `*`, which may skip its operand, or `+`, which may not. */
    method EvalLoop(operands: seq<Frag>, atLeastOne: bool, ghost trees: seq<Regex>, ghost chains: seq<seq<int>>)
      returns (operands': seq<Frag>, ghost trees': seq<Regex>, ghost chains': seq<seq<int>>)
      requires StackValid(operands, trees, chains) && |operands| >= 1
      modifies this`states, this`syms
      ensures StackValid(operands', trees', chains')
      ensures EvalTrees(trees, if atLeastOne then OpOneOrMore else OpZeroOrMore) == Trees(trees')
    {
      var n := |operands|;
      var e0 := operands[n - 1];
      ghost var c0 := chains[n - 1];
      assert OperandOk(states, syms, operands, trees, chains, n - 1);
      var s := NewState(INVALID, e0.start, 0, Literal(0));
      ChainFrame(old(states), states, e0.out, c0);
      Patch(e0.out, s, c0);
      var f := Frag(if atLeastOne then e0.start else s, s, e0.minIndex);
      operands' := operands[..n - 1] + [f];
      ghost var e, c := Repeat(trees[n - 1], if atLeastOne then OneOrMore else ZeroOrMore), [s];
      trees', chains' := trees[..n - 1] + [e], chains[..n - 1] + [c];
      LoopOk(old(states), old(syms), states, Literal(0), e0, trees[n - 1], c0, 0, INVALID);
      StackReplace(old(states), old(syms), operands, trees, chains, states, syms, n - 1, f, e, c);
    }

    /** Replaces the top two fragments, or the top one, by the fragment for `op`. */
    method Eval(operands: seq<Frag>, op: Operator, ghost trees: seq<Regex>, ghost chains: seq<seq<int>>)
      returns (ok: bool, operands': seq<Frag>, ghost trees': seq<Regex>, ghost chains': seq<seq<int>>)
      requires StackValid(operands, trees, chains)
      requires op == OpConcatenation ==> |operands| >= 2
      modifies this`states, this`syms
      ensures StackValid(operands', trees', chains')
      ensures EvalTrees(trees, op) == if ok then Trees(trees') else Refused
    {
      var n := |operands|;
      ok, operands', trees', chains' := false, operands, trees, chains;
      match op
      case OpConcatenation =>
        operands', trees', chains' := EvalConcatenation(operands, trees, chains);
        ok := true;
      case OpAlternation =>
        if n >= 2 {
          operands', trees', chains' := EvalAlternation(operands, trees, chains);
          ok := true;
        }
      case OpZeroOrOne =>
        if n >= 1 {
          operands', trees', chains' := EvalOptional(operands, trees, chains);
          ok := true;
        }
      case OpZeroOrMore =>
        if n >= 1 {
          operands', trees', chains' := EvalLoop(operands, false, trees, chains);
          ok := true;
        }
      case OpOneOrMore =>
        if n >= 1 {
          operands', trees', chains' := EvalLoop(operands, true, trees, chains);
          ok := true;
        }
      case OpLeftParenthesis =>
    }

    /** Copies the states from `from` on behind all others, and moves the copies' links along. */
    method CopyStates(from: nat) returns (count: nat)
      requires Valid() && from <= |states|
      modifies this`states, this`syms
      ensures Valid() && count == |old(states)| - from && |states| == |old(states)| + count
      ensures states[..|old(states)|] == old(states) && syms[..|old(states)|] == old(syms)
      ensures forall i {:trigger old(states)[i]} :: from <= i < |old(states)| ==> states[i + count] == ShiftState(old(states)[i], count)
      ensures forall i {:trigger old(syms)[i]} :: from <= i < |old(states)| ==> syms[i + count] == old(syms)[i]
    {
      hide Spells, PartlyCopied, ShiftStates;
      ghost var st, sy := states, syms;
      var s := |states|;
      count := s - from;
      states := states + states[from..];
      syms := syms + syms[from..];
      CopyEnds(st, from, count);
      var j := 0;
      while j < count
        invariant 0 <= j <= count
        invariant syms == sy + sy[from..]
        invariant states == PartlyCopied(st, from, j, count)
      {
        CopyStep(st, from, j, count);
        var t := states[s + j];
        if t.out != INVALID {
          t := t.(out := t.out + count);
        }
        if t.out1 != INVALID {
          t := t.(out1 := t.out1 + count);
        }
        states := states[s + j := t];
        j := j + 1;
      }
      CopyEnds(st, from, count);
      CopiedStates(st, sy, ranges, states, syms, from, count);
    }

    /** Pushes a copy of the top fragment. */
    method CloneTopOperand(operands: seq<Frag>, ghost trees: seq<Regex>, ghost chains: seq<seq<int>>)
      returns (operands': seq<Frag>, ghost chains': seq<seq<int>>)
      requires StackValid(operands, trees, chains) && |operands| >= 1
      modifies this`states, this`syms
      ensures |trees| == |operands| && |operands'| == |operands| + 1
      ensures StackValid(operands', trees + [trees[|trees| - 1]], chains')
    {
      var n := |operands|;
      var src := operands[n - 1];
      ghost var t, c0 := trees[n - 1], chains[n - 1];
      assert OperandOk(states, syms, operands, trees, chains, n - 1);
      var count := CopyStates(src.minIndex);
      var f := Frag(src.start + count, src.out + count, src.minIndex + count);
      operands' := operands + [f];
      ghost var c := ShiftChain(c0, count);
      chains' := chains + [c];
      CloneOk(old(states), old(syms), states, syms, src, t, c0, count);
      assert forall i :: 0 <= i < |old(states)| ==> states[i] == states[..|old(states)|][i] && syms[i] == syms[..|old(states)|][i];
      StackReplace(old(states), old(syms), operands, trees, chains, states, syms, n, f, t, c);
      assert operands[..n] == operands && trees[..n] == trees && chains[..n] == chains;
    }

    /** CloneTopOperand, `k` times over. */
    method CloneTimes(operands: seq<Frag>, k: nat, ghost trees: seq<Regex>, ghost chains: seq<seq<int>>)
      returns (operands': seq<Frag>, ghost trees': seq<Regex>, ghost chains': seq<seq<int>>)
      requires StackValid(operands, trees, chains) && |operands| >= 1
      modifies this`states, this`syms
      ensures |trees| == |operands| && trees' == trees + Copies(trees[|trees| - 1], k)
      ensures StackValid(operands', trees', chains')
    {
      operands', trees', chains' := operands, trees, chains;
      ghost var t := trees[|trees| - 1];
      for i := 0 to k
        invariant StackValid(operands', trees', chains')
        invariant trees' == trees + Copies(t, i) && trees'[|trees'| - 1] == t
      {
        operands', chains' := CloneTopOperand(operands', trees', chains');
        trees' := trees' + [t];
        assert Copies(t, i + 1) == Copies(t, i) + [t];
      }
    }

    /** Eval with concatenation, `k` times over. */
    method ConcatenateTimes(operands: seq<Frag>, k: nat, ghost trees: seq<Regex>, ghost chains: seq<seq<int>>,
                            ghost base: seq<Regex>, ghost x: Regex, ghost y: Regex)
      returns (operands': seq<Frag>, ghost trees': seq<Regex>, ghost chains': seq<seq<int>>)
      requires StackValid(operands, trees, chains)
      requires trees == base + Copies(x, k) + [y]
      modifies this`states, this`syms
      ensures trees' == base + [Nested(x, k, y)]
      ensures StackValid(operands', trees', chains')
    {
      operands', trees', chains' := operands, trees, chains;
      for i := 0 to k
        invariant StackValid(operands', trees', chains')
        invariant trees' == base + Copies(x, k - i) + [Nested(x, i, y)]
      {
        ghost var before := trees';
        var ok;
        ok, operands', trees', chains' := Eval(operands', OpConcatenation, trees', chains');
        assert Copies(x, k - i) == Copies(x, k - i - 1) + [x];
        assert before[..|before| - 2] == base + Copies(x, k - i - 1);
        assert Trees(trees').ts == EvalTrees(before, OpConcatenation).ts;
      }
      assert base + Copies(x, 0) == base;
    }

    /** `{0,m}`: `m` optional copies of the operand, concatenated. */
    method EvalUpTo(operands: seq<Frag>, m: nat, ghost lower: seq<Regex>, ghost t: Regex, ghost chains: seq<seq<int>>)
      returns (operands': seq<Frag>, ghost trees': seq<Regex>, ghost chains': seq<seq<int>>)
      requires m > 0 && |operands| >= 1
      requires StackValid(operands, lower + [t], chains)
      modifies this`states, this`syms
      ensures trees' == lower + [Nested(Repeat(t, ZeroOrOne), m - 1, Repeat(t, ZeroOrOne))]
      ensures StackValid(operands', trees', chains')
    {
      ghost var o := Repeat(t, ZeroOrOne);
      operands', trees', chains' := EvalOptional(operands, lower + [t], chains);
      assert trees' == lower + [o];
      operands', trees', chains' := CloneTimes(operands', m - 1, trees', chains');
      assert trees' == lower + Copies(o, m - 1) + [o];
      operands', trees', chains' := ConcatenateTimes(operands', m - 1, trees', chains', lower, o, o);
    }

    /** The operand, and `extra` optional copies of it, concatenated. */
    method EvalOptionalTail(operands: seq<Frag>, extra: nat, ghost lower: seq<Regex>, ghost t: Regex, ghost chains: seq<seq<int>>)
      returns (operands': seq<Frag>, ghost trees': seq<Regex>, ghost chains': seq<seq<int>>)
      requires extra > 0 && |operands| >= 1
      requires StackValid(operands, lower + [t], chains)
      modifies this`states, this`syms
      ensures trees' == lower + [Then(t, Nested(Repeat(t, ZeroOrOne), extra - 1, Repeat(t, ZeroOrOne)))]
      ensures StackValid(operands', trees', chains')
    {
      ghost var tail := Nested(Repeat(t, ZeroOrOne), extra - 1, Repeat(t, ZeroOrOne));
      operands', chains' := CloneTopOperand(operands, lower + [t], chains);
      operands', trees', chains' := EvalUpTo(operands', extra, lower + [t], t, chains');
      assert trees' == lower + Copies(t, 1) + [tail];
      operands', trees', chains' := ConcatenateTimes(operands', 1, trees', chains', lower, t, tail);
      assert Nested(t, 1, tail) == Then(t, Nested(t, 0, tail));
    }

    /** `{n,m}`: clones of the operand, optional ones last, all concatenated. */
    method EvalQuantifier(operands: seq<Frag>, n: nat, m: nat, ghost trees: seq<Regex>, ghost chains: seq<seq<int>>)
      returns (ok: bool, operands': seq<Frag>, ghost trees': seq<Regex>, ghost chains': seq<seq<int>>)
      requires StackValid(operands, trees, chains)
      requires n <= m && |operands| >= 1
      modifies this`states, this`syms
      ensures StackValid(operands', trees', chains')
      ensures EvalQuantifierTrees(trees, n, m) == if ok then Trees(trees') else Refused
    {
      ok, operands', trees', chains' := true, operands, trees, chains;
      ghost var base, t := trees[..|trees| - 1], trees[|trees| - 1];
      assert trees == base + [t];
      if n == 0 {
        if m == 0 {
          ok := false;
          return;
        } else if m == INFINITY {
          operands', trees', chains' := EvalLoop(operands', false, trees', chains');
        } else {
          operands', trees', chains' := EvalUpTo(operands', m, base, t, chains');
        }
      } else {
        operands', trees', chains' := CloneTimes(operands', n - 1, trees', chains');
        ghost var lower, last := base + Copies(t, n - 1), t;
        assert trees' == lower + [t];
        if m == INFINITY {
          operands', trees', chains' := EvalLoop(operands', true, trees', chains');
          last := Repeat(t, OneOrMore);
        } else if m > n {
          operands', trees', chains' := EvalOptionalTail(operands', m - n, lower, t, chains');
          last := Then(t, Nested(Repeat(t, ZeroOrOne), m - n - 1, Repeat(t, ZeroOrOne)));
        }
        assert trees' == lower + [last];
        operands', trees', chains' := ConcatenateTimes(operands', n - 1, trees', chains', base, t, last);
      }
      assert trees' == base + [Expanded(t, n, m)];
      ExpandedMeaning(t, n, m);
      StackRename(states, syms, operands', trees', chains', Repeat(t, QuantifierOf(n, m)));
      trees' := base + [Repeat(t, QuantifierOf(n, m))];
    }

    /** Evaluates operators from the top of the stack while `stop` lets it. */
    method EvalWhile(operands: seq<Frag>, operators: seq<Operator>, stop: Stop, ghost trees: seq<Regex>, ghost chains: seq<seq<int>>)
      returns (ok: bool, asserted: bool, operands': seq<Frag>, operators': seq<Operator>,
               ghost trees': seq<Regex>, ghost chains': seq<seq<int>>)
      requires StackValid(operands, trees, chains)
      modifies this`states, this`syms
      ensures StackValid(operands', trees', chains')
      ensures Reduce(trees, operators, stop) ==
              if ok then Reduced(trees', operators') else Stopped(if asserted then AssertionFailed else Invalid)
    {
      ok, asserted := true, false;
      operands', operators', trees', chains' := operands, operators, trees, chains;
      while |operators'| > 0 && Pops(stop, operators'[|operators'| - 1])
        invariant StackValid(operands', trees', chains')
        invariant Reduce(trees, operators, stop) == Reduce(trees', operators', stop)
        decreases |operators'|
      {
        var op := operators'[|operators'| - 1];
        operators' := operators'[..|operators'| - 1];
        if op == OpConcatenation && |operands'| < 2 {
          ok, asserted := false, true;
          return;
        }
        ok, operands', trees', chains' := Eval(operands', op, trees', chains');
        if !ok {
          return;
        }
      }
    }

    static method ParseUnsigned(text: Text, start: nat) returns (ok: bool, u: nat, i: nat)
      ensures RegexPattern.ParseUnsigned(text, start) == if ok then Some((u, i)) else None
    {
      ok, u, i := false, 0, start;
      if !IsDigit(Peek(text, i)) {
        return;
      }
      while IsDigit(Peek(text, i))
        invariant u <= RegexPattern.INFINITY
        invariant UnsignedLoop(text, start, 0) == UnsignedLoop(text, i, u)
        decreases |text| - i
      {
        if u >= 429496729 && Peek(text, i) > '5' as nat {
          return;
        }
        u, i := (u * 10 + (text[i] - '0' as nat)) % 0x1_0000_0000, i + 1;
      }
      ok := true;
    }

    method NewRange(codepoint: nat) returns (r: int)
      modifies this`ranges
      ensures r == |old(ranges)| && ranges == old(ranges) + [RangeCell(codepoint, codepoint, INVALID)]
    {
      r := |ranges|;
      ranges := ranges + [RangeCell(codepoint, codepoint, INVALID)];
    }

    /** A bracket class half read: the cells after `before` spell `rs`. */
    ghost predicate Reading(before: seq<RangeCell>, rs: seq<Range>, start: int, current: int, step: nat)
      reads this
    {
      && |ranges| == |before| + |rs| && before <= ranges
      && step <= 2 && (step > 0 ==> rs != [])
      && (if rs == [] then start == current == INVALID else start == |before| && current == |ranges| - 1)
      && forall k {:trigger rs[k]} :: 0 <= k < |rs| ==>
           && rs[k].lo <= 0x10FFFF
           && ranges[|before| + k] == RangeCell(rs[k].lo, rs[k].hi, if k + 1 < |rs| then |before| + k + 1 else INVALID)
    }

    method AddRange(codepoint: CodePoint, start: int, current: int, ghost before: seq<RangeCell>, ghost rs: seq<Range>)
      returns (start': int, current': int)
      requires Reading(before, rs, start, current, 0)
      modifies this`ranges
      ensures Reading(before, rs + [Range(codepoint, codepoint)], start', current', 1)
    {
      start', current' := start, current;
      ghost var was := ranges;
      var r := NewRange(codepoint);
      if current != INVALID {
        ranges := ranges[current := ranges[current].(next := r)];
      }
      if start == INVALID {
        start' := r;
      }
      current' := r;
      ghost var rs' := rs + [Range(codepoint, codepoint)];
      forall k | 0 <= k < |rs'|
        ensures rs'[k].lo <= 0x10FFFF
        ensures ranges[|before| + k] == RangeCell(rs'[k].lo, rs'[k].hi, if k + 1 < |rs'| then |before| + k + 1 else INVALID)
      {
        if k < |rs| {
          assert was[|before| + k] == RangeCell(rs[k].lo, rs[k].hi, if k + 1 < |rs| then |before| + k + 1 else INVALID);
        }
      }
    }

    method EndRange(codepoint: nat, start: int, current: int, ghost before: seq<RangeCell>, ghost rs: seq<Range>)
      requires Reading(before, rs, start, current, 2)
      modifies this`ranges
      ensures Reading(before, rs[|rs| - 1 := rs[|rs| - 1].(hi := codepoint)], start, current, 0)
    {
      ghost var was := ranges;
      ghost var x := rs[|rs| - 1];
      ranges := ranges[current := ranges[current].(end := codepoint)];
      ghost var rs' := rs[|rs| - 1 := rs[|rs| - 1].(hi := codepoint)];
      forall k | 0 <= k < |rs'|
        ensures rs'[k].lo <= 0x10FFFF
        ensures ranges[|before| + k] == RangeCell(rs'[k].lo, rs'[k].hi, if k + 1 < |rs'| then |before| + k + 1 else INVALID)
      {
        assert was[|before| + k] == RangeCell(rs[k].lo, rs[k].hi, if k + 1 < |rs| then |before| + k + 1 else INVALID);
      }
    }

    method CloseRange(negate: bool, start: int, current: int, step: nat, ghost before: seq<RangeCell>, ghost rs: seq<Range>)
      returns (ghost sym: Symbol)
      requires Reading(before, rs, start, current, step) && rs != []
      modifies this`ranges
      ensures before <= ranges
      ensures sym == Class(negate, if step == 2 then rs + [Range('-' as nat, '-' as nat)] else rs)
      ensures ClassCells(ranges, start, negate, sym.ranges)
    {
      ghost var rs' := rs;
      if step == 2 {
        var start', current' := AddRange('-' as nat, start, current, before, rs);
        rs' := rs + [Range('-' as nat, '-' as nat)];
        assert start' == start;
      }
      ghost var was := ranges;
      assert was[|before| + 0].start == rs'[0].lo;
      if negate {
        ranges := ranges[start := ranges[start].(start := ranges[start].start + RANGE_NEGATION_FLAG)];
      }
      sym := Class(negate, rs');
      forall k | 0 <= k < |rs'|
        ensures rs'[k].lo < RANGE_NEGATION_FLAG
        ensures ranges[start + k].start == rs'[k].lo + (if negate && k == 0 then RANGE_NEGATION_FLAG else 0)
        ensures ranges[start + k].end == rs'[k].hi
        ensures ranges[start + k].next == (if k + 1 < |rs'| then start + k + 1 else INVALID)
      {
        assert was[|before| + k] == RangeCell(rs'[k].lo, rs'[k].hi, if k + 1 < |rs'| then |before| + k + 1 else INVALID);
      }
    }

    /** Reads a bracket class from the position after '[', into new cells of the range table. */
    method ParseRange(text: Text, begin: nat) returns (ok: bool, range: int, i: nat, ghost sym: Symbol)
      requires Valid()
      modifies this`ranges
      ensures Valid()
      ensures ScanClass(text, begin, true, false, 0, []) == if ok then Some((sym, i)) else None
      ensures ok ==> sym.Class? && ClassCells(ranges, range, sym.negate, sym.ranges)
    {
      var isBegin, negate, step := true, false, 0;
      var start, current := INVALID, INVALID;
      ghost var rs: seq<Range>, before := [], ranges;
      ok, range, i, sym := false, INVALID, begin, AnyChar;
      while i < |text|
        invariant Reading(before, rs, start, current, step)
        invariant ScanClass(text, begin, true, false, 0, []) == ScanClass(text, i, isBegin, negate, step, rs)
        decreases |text| - i
      {
        if isBegin && text[i] == '^' as nat {
          isBegin, negate, i := false, true, i + 1;
          continue;
        }
        isBegin := false;
        if text[i] == ']' as nat {
          if start != INVALID {
            sym := CloseRange(negate, start, current, step, before, rs);
            ok, range, i := true, start, i + 1;
          }
          AllSpell(states, before, ranges, syms);
          return;
        }
        var read := ClassChar(text, i);
        if read == None {
          break;
        }
        var codepoint, j := read.value.0, read.value.1;
        if step == 1 && codepoint == '-' as nat {
          step := 2;
        } else if step == 2 {
          EndRange(codepoint, start, current, before, rs);
          rs, step := rs[|rs| - 1 := rs[|rs| - 1].(hi := codepoint)], 0;
        } else {
          start, current := AddRange(codepoint, start, current, before, rs);
          rs, step := rs + [Range(codepoint, codepoint)], 1;
        }
        i := j;
      }
      AllSpell(states, before, ranges, syms);
    }

    /** Pushes the fragment of a one-symbol state. */
    method PushOperand(operands: seq<Frag>, codepoint: nat, rangeStart: int, ghost sym: Symbol,
                       ghost trees: seq<Regex>, ghost chains: seq<seq<int>>)
      returns (operands': seq<Frag>, ghost trees': seq<Regex>, ghost chains': seq<seq<int>>)
      requires StackValid(operands, trees, chains)
      requires Spells(State(INVALID, INVALID, rangeStart, codepoint), ranges, sym)
      modifies this`states, this`syms
      ensures trees' == trees + [Sym(sym)]
      ensures StackValid(operands', trees', chains')
    {
      var s := |states|;
      states := states + [State(INVALID, INVALID, rangeStart, codepoint)];
      syms := syms + [sym];
      operands' := operands + [Frag(s, s, s)];
      trees', chains' := trees + [Sym(sym)], chains + [[s]];
      AtomOk(old(states), old(syms), sym, rangeStart, codepoint);
      StackReplace(old(states), old(syms), operands, trees, chains, states, syms, |operands|, Frag(s, s, s), Sym(sym), [s]);
      assert operands[..|operands|] == operands && trees[..|trees|] == trees && chains[..|chains|] == chains;
    }

    // ----- The reader: one method per kind of pattern character -----

    /** The reader's stacks, as the pattern reader on trees sees them. */
    ghost function View(s: Stacks, g: Shadow): Config
      reads this
    {
      Config(g.trees, s.operators, s.atomCounts, anchorBegin, anchorEnd)
    }

    method ReadAtom(s: Stacks, ghost g: Shadow, codepoint: nat, rangeStart: int, ghost sym: Symbol, ghost i: nat)
      returns (v: Verdict, s': Stacks, ghost g': Shadow)
      requires StackValid(s.operands, g.trees, g.chains)
      requires Spells(State(INVALID, INVALID, rangeStart, codepoint), ranges, sym)
      modifies this`states, this`syms
      ensures StackValid(s'.operands, g'.trees, g'.chains)
      ensures PushAtom(View(s, g), sym, i) == v.Answer(i, View(s', g'))
    {
      var operands, trees, chains := PushOperand(s.operands, codepoint, rangeStart, sym, g.trees, g.chains);
      s', g' := s.(operands := operands), Shadow(trees, chains);
      v, s' := ImplicitConcatenation(s');
    }

    static method ImplicitConcatenation(s: Stacks) returns (v: Verdict, s': Stacks)
      ensures s'.operands == s.operands
      ensures forall cfg: Config, i: nat {:trigger Atom(cfg, i)} :: cfg.ops == s.operators && cfg.counts == s.atomCounts ==>
                Atom(cfg, i) == v.Answer(i, cfg.(ops := s'.operators, counts := s'.atomCounts))
    {
      var n := |s.atomCounts|;
      v, s' := Go, s;
      if n == 0 {
        v := Assert;
      } else {
        if s.atomCounts[n - 1] > 0 {
          s' := s'.(operators := s.operators + [OpConcatenation]);
        }
        s' := s'.(atomCounts := s.atomCounts[n - 1 := s.atomCounts[n - 1] + 1]);
      }
    }

    method ReadBar(s: Stacks, ghost g: Shadow, ghost i: nat) returns (v: Verdict, s': Stacks, ghost g': Shadow)
      requires StackValid(s.operands, g.trees, g.chains)
      modifies this`states, this`syms
      ensures StackValid(s'.operands, g'.trees, g'.chains)
      ensures StepBar(View(s, g), i) == v.Answer(i, View(s', g'))
    {
      var ok, asserted, operands, operators, trees, chains := EvalWhile(s.operands, s.operators, AtAlternation, g.trees, g.chains);
      s', g' := s.(operands := operands), Shadow(trees, chains);
      if !ok {
        v := if asserted then Assert else Reject;
      } else if |s.atomCounts| == 0 {
        v := Assert;
      } else {
        v := Go;
        s' := Stacks(operands, operators + [OpAlternation], s.atomCounts[|s.atomCounts| - 1 := 0]);
      }
    }

    method ReadClose(s: Stacks, ghost g: Shadow, ghost i: nat) returns (v: Verdict, s': Stacks, ghost g': Shadow)
      requires StackValid(s.operands, g.trees, g.chains)
      modifies this`states, this`syms
      ensures StackValid(s'.operands, g'.trees, g'.chains)
      ensures StepClose(View(s, g), i) == v.Answer(i, View(s', g'))
    {
      var ok, asserted, operands, operators, trees, chains := EvalWhile(s.operands, s.operators, AtParenthesis, g.trees, g.chains);
      s', g' := s.(operands := operands), Shadow(trees, chains);
      if !ok {
        v := if asserted then Assert else Reject;
      } else if |operators| == 0 {
        v := Reject;
      } else if |s.atomCounts| == 0 {
        v := Assert;
      } else {
        s' := Stacks(operands, operators[..|operators| - 1], s.atomCounts[..|s.atomCounts| - 1]);
        v, s' := ImplicitConcatenation(s');
      }
    }

    method ReadQuantifier(s: Stacks, ghost g: Shadow, op: Operator, ghost i: nat)
      returns (v: Verdict, s': Stacks, ghost g': Shadow)
      requires StackValid(s.operands, g.trees, g.chains)
      requires op == OpZeroOrOne || op == OpZeroOrMore || op == OpOneOrMore
      modifies this`states, this`syms
      ensures StackValid(s'.operands, g'.trees, g'.chains)
      ensures Evaluated(View(s, g), EvalTrees(g.trees, op), i) == v.Answer(i, View(s', g'))
    {
      var ok, operands, trees, chains := Eval(s.operands, op, g.trees, g.chains);
      s', g' := s.(operands := operands), Shadow(trees, chains);
      v := if ok then Go else Reject;
    }

    method ReadBrace(text: Text, start: nat, s: Stacks, ghost g: Shadow)
      returns (v: Verdict, i: nat, s': Stacks, ghost g': Shadow)
      requires StackValid(s.operands, g.trees, g.chains)
      modifies this`states, this`syms
      ensures StackValid(s'.operands, g'.trees, g'.chains)
      ensures StepBrace(text, start, View(s, g)) == v.Answer(i, View(s', g'))
    {
      v, s', g' := Reject, s, g;
      var ok, n, m;
      ok, n, i := ParseUnsigned(text, start);
      if !ok {
        return;
      }
      m := n;
      if Peek(text, i) == ',' as nat {
        if Peek(text, i + 1) == '}' as nat {
          m, i := RegexPattern.INFINITY, i + 1;
        } else {
          ok, m, i := ParseUnsigned(text, i + 1);
          if !ok || m < n {
            return;
          }
        }
      }
      if |s.operands| == 0 {
        v := Assert;
        return;
      }
      var operands;
      ghost var trees, chains;
      ok, operands, trees, chains := EvalQuantifier(s.operands, n, m, g.trees, g.chains);
      s', g' := s.(operands := operands), Shadow(trees, chains);
      if ok && Peek(text, i) == '}' as nat {
        v, i := Go, i + 1;
      }
    }

    method ReadClass(text: Text, start: nat, s: Stacks, ghost g: Shadow)
      returns (v: Verdict, i: nat, s': Stacks, ghost g': Shadow, ghost sym: Symbol)
      requires StackValid(s.operands, g.trees, g.chains)
      modifies this`states, this`syms, this`ranges
      ensures StackValid(s'.operands, g'.trees, g'.chains)
      ensures match ScanClass(text, start, true, false, 0, [])
              case None => v == Reject
              case Some((sym, j)) => i == j && PushAtom(View(s, g), sym, i) == v.Answer(i, View(s', g'))
    {
      v, s', g' := Reject, s, g;
      var ok, range;
      ok, range, i, sym := ParseRange(text, start);
      if ok {
        v, s', g' := ReadAtom(s, g, RANGE_CHARACTER_CLASS, range, sym, i);
      }
    }

    /** The reader's loop, and the link to the match state. */
    method Parse(text: Text) returns (ghost done: Outcome)
      requires states == [] && syms == [] && root == INVALID && !anchorBegin && !anchorEnd
      modifies this
      ensures done == Read(text)
      ensures root != INVALID <==> done.Compiled?
      ensures done.Compiled? ==> Ready(done.e) && anchorBegin == done.anchorBegin && anchorEnd == done.anchorEnd
    {
      hide FragOk, Closed, AllHalt, Language;
      var s := Stacks([], [], [0]);
      ghost var g := Shadow([], []);
      var i := 0;
      while i < |text|
        invariant root == INVALID && StackValid(s.operands, g.trees, g.chains)
        invariant Read(text) == Run(text, i, View(s, g))
        decreases |text| - i
      {
        var v, c := Go, text[i];
        ghost var was := View(s, g);
        i := i + 1;
        if c == '^' as nat {
          anchorBegin := true;
        } else if c == '$' as nat {
          anchorEnd := true;
        } else if c == '|' as nat {
          v, s, g := ReadBar(s, g, i);
        } else if c == '(' as nat {
          s := s.(operators := s.operators + [OpLeftParenthesis], atomCounts := s.atomCounts + [0]);
        } else if c == ')' as nat {
          v, s, g := ReadClose(s, g, i);
        } else if c == '?' as nat {
          v, s, g := ReadQuantifier(s, g, OpZeroOrOne, i);
        } else if c == '*' as nat {
          v, s, g := ReadQuantifier(s, g, OpZeroOrMore, i);
        } else if c == '+' as nat {
          v, s, g := ReadQuantifier(s, g, OpOneOrMore, i);
        } else if c == '{' as nat {
          v, i, s, g := ReadBrace(text, i, s, g);
        } else if c == '.' as nat {
          v, s, g := ReadAtom(s, g, ANY_CHARACTER_CLASS, INVALID, AnyChar, i);
        } else if c == '[' as nat {
          ghost var sym;
          v, i, s, g, sym := ReadClass(text, i, s, g);
        } else if c == '\\' as nat {
          var escaped := CharacterEscape(text, i);
          if escaped == None {
            v := Reject;
          } else {
            i := escaped.value.1;
            v, s, g := ReadAtom(s, g, escaped.value.0, INVALID, Literal(escaped.value.0), i);
          }
        } else {
          v, s, g := ReadAtom(s, g, c, INVALID, Literal(c), i);
        }
        if v != Go {
          done := if v == Assert then AssertionFailed else Invalid;
          return;
        }
      }
      done := Link(s, g);
    }

    /** Evaluates the remaining operators and links the one remaining fragment to the match state. */
    method Link(s: Stacks, ghost g: Shadow) returns (ghost done: Outcome)
      requires root == INVALID && StackValid(s.operands, g.trees, g.chains)
      modifies this`states, this`syms, this`root
      ensures done == Finish(View(s, g))
      ensures root != INVALID <==> done.Compiled?
      ensures done.Compiled? ==> Ready(done.e) && anchorBegin == done.anchorBegin && anchorEnd == done.anchorEnd
    {
      var ok, asserted, operands, operators, trees, chains := EvalWhile(s.operands, s.operators, AtBottom, g.trees, g.chains);
      done := if !ok && asserted then AssertionFailed else Invalid;
      if ok && |operands| == 1 {
        var e := operands[0];
        assert OperandOk(states, syms, operands, trees, chains, 0);
        ghost var st, sy := states, syms;
        var m := NewState(INVALID, INVALID, 0, Literal(0));
        ChainFrame(st, states, e.out, chains[0]);
        Patch(e.out, m, chains[0]);
        root := e.start;
        FinishOk(st, sy, states, Literal(0), e, trees[0], chains[0], INVALID);
        done := Compiled(trees[0], anchorBegin, anchorEnd);
      }
    }
  }
}
