/**
 * Fragments of internal/regex.h: a stretch of states with one entry and a
 * linked list of dangling exits threaded through the states' `out` fields.
 */
module RegexFragments {
  import opened RegexLanguage
  import opened RegexGraph

  datatype Frag = Frag(start: int, out: int, minIndex: int)

  function Members(chain: seq<int>): set<int> {
    set x | x in chain
  }

  ghost function GraphOf(st: seq<State>, sy: seq<Symbol>, chain: seq<int>): Graph {
    Graph(st, sy, Members(chain))
  }

  /** Following `out` from `l` visits exactly `chain` and then meets INVALID. */
  ghost predicate IsChain(st: seq<State>, l: int, chain: seq<int>)
    decreases |chain|
  {
    if chain == [] then l == INVALID
    else l == chain[0] && 0 <= l < |st| && IsChain(st, st[l].out, chain[1..])
  }

  /**
   * Fragment `f` owns the states `f.minIndex..hi`, `chain` lists its dangling
   * exits, it reads exactly the language of `e`, and recursion over its splits
   * ends exactly when `e` repeats no nullable operand without bound.
   */
  ghost predicate FragOk(st: seq<State>, sy: seq<Symbol>, f: Frag, hi: int, e: Regex, chain: seq<int>) {
    && 0 <= f.minIndex <= f.start < hi <= |st| == |sy|
    && chain != []
    && (forall k :: 0 <= k < |chain| ==> f.minIndex <= chain[k] < hi)
    && IsChain(st, f.out, chain)
    && Region(GraphOf(st, sy, chain), f.minIndex, hi)
    && Language(GraphOf(st, sy, chain), f.start) == LangOf(e)
    && (AllHalt(GraphOf(st, sy, chain), f.minIndex, hi) <==> LoopsProductive(e))
  }

  // ----- Chains -----

  lemma {:induction false} ChainUnique(st: seq<State>, l: int, c: seq<int>, d: seq<int>)
    requires IsChain(st, l, c) && IsChain(st, l, d)
    requires forall k :: 0 <= k < |c| ==> c[k] != INVALID
    requires forall k :: 0 <= k < |d| ==> d[k] != INVALID
    ensures c == d
    decreases |c|
  {
    if c != [] && d != [] {
      ChainUnique(st, st[l].out, c[1..], d[1..]);
      assert c == [c[0]] + c[1..] && d == [d[0]] + d[1..];
    }
  }

  lemma {:induction false} ChainSuffix(st: seq<State>, l: int, c: seq<int>, k: nat)
    requires IsChain(st, l, c) && k < |c|
    ensures 0 <= c[k] < |st| && IsChain(st, c[k], c[k..])
    ensures st[c[k]].out == (if k + 1 < |c| then c[k + 1] else INVALID)
    decreases k
  {
    if k == 0 {
      assert c[0..] == c;
      if |c| > 1 {
        assert IsChain(st, st[l].out, c[1..]);
      }
    } else {
      ChainSuffix(st, st[l].out, c[1..], k - 1);
      assert c[1..][k - 1..] == c[k..];
    }
  }

  /** A finite chain cannot meet a state twice. */
  lemma ChainNoRepeats(st: seq<State>, l: int, c: seq<int>, i: nat, j: nat)
    requires IsChain(st, l, c) && i < j < |c|
    ensures c[i] != c[j]
  {
    if c[i] == c[j] {
      ChainSuffix(st, l, c, i);
      ChainSuffix(st, l, c, j);
      forall k | 0 <= k < |c| ensures c[k] != INVALID {
        ChainSuffix(st, l, c, k);
      }
      ChainUnique(st, c[i], c[i..], c[j..]);
    }
  }

  lemma {:induction false} ChainFrame(st: seq<State>, st': seq<State>, l: int, c: seq<int>)
    requires IsChain(st, l, c) && |st| <= |st'|
    requires forall k :: 0 <= k < |c| && 0 <= c[k] < |st| ==> st'[c[k]].out == st[c[k]].out
    ensures IsChain(st', l, c)
    decreases |c|
  {
    if c != [] {
      assert c[0] == l;
      forall k | 0 <= k < |c[1..]| && 0 <= c[1..][k] < |st| ensures st'[c[1..][k]].out == st[c[1..][k]].out {
        assert c[1..][k] == c[k + 1];
      }
      ChainFrame(st, st', st[l].out, c[1..]);
    }
  }

  /** Writing `l2` into the last state of a chain appends the chain of `l2`. */
  lemma {:induction false} ChainAppend(st: seq<State>, l1: int, c1: seq<int>, l2: int, c2: seq<int>, last: int)
    requires IsChain(st, l1, c1) && c1 != [] && last == c1[|c1| - 1] && 0 <= last < |st|
    requires IsChain(st[last := st[last].(out := l2)], l2, c2)
    ensures IsChain(st[last := st[last].(out := l2)], l1, c1 + c2)
    decreases |c1|
  {
    var st' := st[last := st[last].(out := l2)];
    assert (c1 + c2)[1..] == c1[1..] + c2;
    if |c1| == 1 {
      assert c1[1..] + c2 == c2;
    } else {
      ChainNoRepeats(st, l1, c1, 0, |c1| - 1);
      ChainAppend(st, st[l1].out, c1[1..], l2, c2, last);
    }
  }

  ghost function ShiftState(s: State, c: nat): State {
    s.(out := if s.out != INVALID then s.out + c else INVALID,
       out1 := if s.out1 != INVALID then s.out1 + c else INVALID)
  }

  ghost function ShiftChain(chain: seq<int>, c: nat): seq<int> {
    seq(|chain|, k requires 0 <= k < |chain| => chain[k] + c)
  }

  lemma {:induction false} ChainShift(st: seq<State>, st': seq<State>, l: int, chain: seq<int>, c: nat)
    requires IsChain(st, l, chain)
    requires forall k :: 0 <= k < |chain| ==> 0 <= chain[k] < |st| && chain[k] + c < |st'|
    requires forall k {:trigger chain[k]} :: 0 <= k < |chain| ==> st'[chain[k] + c] == ShiftState(st[chain[k]], c)
    ensures IsChain(st', if l != INVALID then l + c else INVALID, ShiftChain(chain, c))
    decreases |chain|
  {
    if chain != [] {
      var rest := chain[1..];
      assert ShiftChain(chain, c)[1..] == ShiftChain(rest, c);
      forall k | 0 <= k < |rest| ensures 0 <= rest[k] < |st| && rest[k] + c < |st'| && st'[rest[k] + c] == ShiftState(st[rest[k]], c) {
        assert rest[k] == chain[k + 1];
      }
      ChainShift(st, st', st[l].out, rest, c);
      assert chain[0] == l;
      assert st'[l + c] == ShiftState(st[l], c);
    }
  }

  // ----- What each constructor of the compiler does to fragments -----

  lemma FragFrame(st: seq<State>, sy: seq<Symbol>, st': seq<State>, sy': seq<Symbol>,
                  f: Frag, hi: int, e: Regex, chain: seq<int>)
    requires FragOk(st, sy, f, hi, e, chain)
    requires |st| <= |st'| && |st'| == |sy'|
    requires forall i :: f.minIndex <= i < hi ==> st'[i] == st[i] && sy'[i] == sy[i]
    ensures FragOk(st', sy', f, hi, e, chain)
  {
    ChainFrame(st, st', f.out, chain);
    RegionAgree(GraphOf(st, sy, chain), GraphOf(st', sy', chain), f.minIndex, hi);
  }

  lemma AtomOk(st: seq<State>, sy: seq<Symbol>, s: Symbol, rangeStart: int, codepoint: nat)
    requires |st| == |sy|
    ensures FragOk(st + [State(INVALID, INVALID, rangeStart, codepoint)], sy + [s],
                   Frag(|st|, |st|, |st|), |st| + 1, Sym(s), [|st|])
  {
    var n := |st|;
    var st', sy' := st + [State(INVALID, INVALID, rangeStart, codepoint)], sy + [s];
    var g := GraphOf(st', sy', [n]);
    assert [n][1..] == [];
    assert IsChain(st', n, [n]);
    forall w: Word ensures w in Language(g, n) <==> w in SymbolLang(s) {
      if w in Language(g, n) {
        var k: nat :| Acc(g, k, n, w);
      }
      if w in SymbolLang(s) {
        assert Acc(g, 1, n, w);
      }
    }
    assert Halts(g, 1, n);
  }

  ghost predicate PatchedStates(st: seq<State>, st': seq<State>, chain: seq<int>, t: int) {
    && |st'| == |st|
    && forall i :: 0 <= i < |st| ==> st'[i] == if i in chain then st[i].(out := t) else st[i]
  }

  lemma ThenOk(st: seq<State>, sy: seq<Symbol>, st': seq<State>,
               f1: Frag, e1: Regex, c1: seq<int>, f2: Frag, e2: Regex, c2: seq<int>)
    requires FragOk(st, sy, f1, f2.minIndex, e1, c1) && FragOk(st, sy, f2, |st|, e2, c2)
    requires PatchedStates(st, st', c1, f2.start)
    ensures FragOk(st', sy, Frag(f1.start, f2.out, f1.minIndex), |st|, Then(e1, e2), c2)
  {
    FragFrame(st, sy, st', sy, f2, |st|, e2, c2);
    var g, h := GraphOf(st, sy, c1), GraphOf(st', sy, c2);
    PatchedLanguage(g, h, f1.minIndex, f2.minIndex, f2.start, f1.start);
    if Halting(h, f2.start) {
      PatchedHalting(g, h, f1.minIndex, f2.minIndex, f2.start);
    }
  }

  lemma SplitLanguage(g: Graph, s: int)
    requires 0 <= s < |g.states| == |g.syms| && g.states[s].out1 != INVALID
    ensures Language(g, s) == Language(g, g.states[s].out1)
                              + (if s in g.dangling then iset{[]} else Language(g, g.states[s].out))
    ensures Halting(g, s) <==> Halting(g, g.states[s].out1) && (s in g.dangling || Halting(g, g.states[s].out))
  {
    var l, r := g.states[s].out, g.states[s].out1;
    forall w: Word
      ensures Accepts(g, s, w) <==> Accepts(g, r, w) || (if s in g.dangling then w == [] else Accepts(g, l, w))
    {
      if Accepts(g, s, w) {
        var n: nat :| Acc(g, n, s, w);
        assert Acc(g, n - 1, r, w) || (if s in g.dangling then w == [] else Acc(g, n - 1, l, w));
      }
      if Accepts(g, r, w) {
        var n: nat :| Acc(g, n, r, w);
        assert Acc(g, n + 1, s, w);
      } else if s in g.dangling && w == [] {
        assert Acc(g, 1, s, w);
      } else if s !in g.dangling && Accepts(g, l, w) {
        var n: nat :| Acc(g, n, l, w);
        assert Acc(g, n + 1, s, w);
      }
    }
    SplitHalting(g, s);
  }

  lemma SplitHalting(g: Graph, s: int)
    requires 0 <= s < |g.states| && g.states[s].out1 != INVALID
    ensures Halting(g, s) <==> Halting(g, g.states[s].out1) && (s in g.dangling || Halting(g, g.states[s].out))
  {
    var l, r := g.states[s].out, g.states[s].out1;
    if Halting(g, s) {
      var n: nat :| Halts(g, n, s);
      assert Halts(g, n - 1, r) && (s in g.dangling || Halts(g, n - 1, l));
    }
    if Halting(g, r) && s in g.dangling {
      var n: nat :| Halts(g, n, r);
      HaltsMono(g, n, n + 1, r);
      assert Halts(g, n + 1, s);
    } else if Halting(g, r) && Halting(g, l) {
      var n: nat :| Halts(g, n, r);
      var m: nat :| Halts(g, m, l);
      HaltsMono(g, n, n + m, r);
      HaltsMono(g, m, n + m, l);
      assert Halts(g, n + m + 1, s);
    }
  }

  /** A new split in front of two regions. */
  lemma BranchOk(h: Graph, lo: int, mid: int, s: int, a: int, b: int)
    requires Region(h, lo, mid) && Region(h, mid, s)
    requires lo <= a < mid <= b < s < |h.states| == |h.syms|
    requires s !in h.dangling && h.states[s].out == a && h.states[s].out1 == b
    ensures Region(h, lo, s + 1)
    ensures Language(h, s) == Language(h, a) + Language(h, b)
    ensures AllHalt(h, lo, s + 1) <==> AllHalt(h, lo, mid) && AllHalt(h, mid, s)
  {
    SplitLanguage(h, s);
  }

  lemma MembersAppend(c1: seq<int>, c2: seq<int>)
    ensures Members(c1 + c2) == Members(c1) + Members(c2)
  {
  }

  /** Appending chain `c2` to chain `c1` leaves both stretches as they were, apart from the exits' links. */
  lemma OrGraphs(st: seq<State>, sy: seq<Symbol>, h: Graph, lo: int, mid: int, s: int, c1: seq<int>, c2: seq<int>)
    requires Region(GraphOf(st, sy, c1), lo, mid) && Region(GraphOf(st, sy, c2), mid, s)
    requires forall k :: 0 <= k < |c1| ==> lo <= c1[k] < mid
    requires forall k :: 0 <= k < |c2| ==> mid <= c2[k] < s
    requires |h.states| == |h.syms| > s && |st| == s
    requires h.dangling == Members(c1) + Members(c2)
    requires forall i :: lo <= i < s ==> h.syms[i] == sy[i] && h.states[i].out1 == st[i].out1
    requires forall i :: lo <= i < s && i !in Members(c1) ==> h.states[i].out == st[i].out
    ensures Agree(GraphOf(st, sy, c1), h, lo, mid) && Agree(GraphOf(st, sy, c2), h, mid, s)
  {
  }

  lemma OrChain(st: seq<State>, sy: seq<Symbol>, s: State,
                f1: Frag, e1: Regex, c1: seq<int>, f2: Frag, e2: Regex, c2: seq<int>)
    requires FragOk(st, sy, f1, f2.minIndex, e1, c1) && FragOk(st, sy, f2, |st|, e2, c2)
    ensures IsChain((st + [s])[c1[|c1| - 1] := st[c1[|c1| - 1]].(out := f2.out)], f1.out, c1 + c2)
  {
    var last := c1[|c1| - 1];
    var stn := st + [s];
    var st' := stn[last := st[last].(out := f2.out)];
    assert stn[last] == st[last];
    ChainFrame(st, stn, f1.out, c1);
    ChainFrame(st, st', f2.out, c2);
    ChainAppend(stn, f1.out, c1, f2.out, c2, last);
  }

  lemma OrOk(st: seq<State>, sy: seq<Symbol>, st': seq<State>, anySym: Symbol,
             f1: Frag, e1: Regex, c1: seq<int>, f2: Frag, e2: Regex, c2: seq<int>, codepoint: nat, rangeStart: int)
    requires FragOk(st, sy, f1, f2.minIndex, e1, c1) && FragOk(st, sy, f2, |st|, e2, c2)
    requires st' == (st + [State(f1.start, f2.start, rangeStart, codepoint)])
                    [c1[|c1| - 1] := st[c1[|c1| - 1]].(out := f2.out)]
    ensures FragOk(st', sy + [anySym], Frag(|st|, f1.out, f1.minIndex), |st| + 1, Or(e1, e2), c1 + c2)
  {
    hide Halting, Accepts, IsChain;
    var s := |st|;
    var h := GraphOf(st', sy + [anySym], c1 + c2);
    OrChain(st, sy, State(f1.start, f2.start, rangeStart, codepoint), f1, e1, c1, f2, e2, c2);
    MembersAppend(c1, c2);
    assert c1[|c1| - 1] in Members(c1);
    OrGraphs(st, sy, h, f1.minIndex, f2.minIndex, s, c1, c2);
    RegionAgree(GraphOf(st, sy, c1), h, f1.minIndex, f2.minIndex);
    RegionAgree(GraphOf(st, sy, c2), h, f2.minIndex, s);
    BranchOk(h, f1.minIndex, f2.minIndex, s, f1.start, f2.start);
  }

  lemma OptChain(st: seq<State>, sy: seq<Symbol>, split: State, f: Frag, e: Regex, c: seq<int>)
    requires FragOk(st, sy, f, |st|, e, c) && split.out == INVALID
    ensures IsChain((st + [split])[c[|c| - 1] := st[c[|c| - 1]].(out := |st|)], f.out, c + [|st|])
  {
    var s, last := |st|, c[|c| - 1];
    var stn := st + [split];
    assert [s][1..] == [];
    assert stn[last] == st[last];
    ChainFrame(st, stn, f.out, c);
    ChainAppend(stn, f.out, c, s, [s], last);
  }

  lemma OptOk(st: seq<State>, sy: seq<Symbol>, st': seq<State>, anySym: Symbol,
              f: Frag, e: Regex, c: seq<int>, codepoint: nat, rangeStart: int)
    requires FragOk(st, sy, f, |st|, e, c)
    requires st' == (st + [State(INVALID, f.start, rangeStart, codepoint)])
                    [c[|c| - 1] := st[c[|c| - 1]].(out := |st|)]
    ensures FragOk(st', sy + [anySym], Frag(|st|, f.out, f.minIndex), |st| + 1, Repeat(e, ZeroOrOne), c + [|st|])
  {
    hide Halting, Accepts, IsChain;
    var s := |st|;
    var g, h := GraphOf(st, sy, c), GraphOf(st', sy + [anySym], c + [s]);
    OptChain(st, sy, State(INVALID, f.start, rangeStart, codepoint), f, e, c);
    MembersAppend(c, [s]);
    assert c[|c| - 1] in Members(c) && s in Members([s]);
    assert Agree(g, h, f.minIndex, s);
    RegionAgree(g, h, f.minIndex, s);
    SplitLanguage(h, s);
    OptIsTimes(LangOf(e));
    assert AllHalt(h, f.minIndex, s + 1) <==> AllHalt(h, f.minIndex, s) && Halting(h, s);
  }

  /** `*` and `+`: the dangling exits all enter a new split that re-enters the operand. */
  lemma LoopOk(st: seq<State>, sy: seq<Symbol>, st': seq<State>, anySym: Symbol,
               f: Frag, e: Regex, c: seq<int>, codepoint: nat, rangeStart: int)
    requires FragOk(st, sy, f, |st|, e, c)
    requires PatchedStates(st + [State(INVALID, f.start, rangeStart, codepoint)], st', c, |st|)
    ensures FragOk(st', sy + [anySym], Frag(|st|, |st|, f.minIndex), |st| + 1, Repeat(e, ZeroOrMore), [|st|])
    ensures FragOk(st', sy + [anySym], Frag(f.start, |st|, f.minIndex), |st| + 1, Repeat(e, OneOrMore), [|st|])
  {
    var s := |st|;
    var sy' := sy + [anySym];
    var g, h := GraphOf(st, sy, c), GraphOf(st', sy', [s]);
    assert [s][1..] == [];
    assert s !in c;
    assert st'[s] == State(INVALID, f.start, rangeStart, codepoint);
    assert IsChain(st', s, [s]);
    assert s in [s];
    assert Patched(g, h, f.minIndex, s, s);
    LoopLanguage(g, h, f.minIndex, s, s, f.start);
    LoopHalting(g, h, f.minIndex, s, s, f.start);
    assert AllHalt(h, f.minIndex, s + 1) <==> AllHalt(h, f.minIndex, s) && Halting(h, s);
  }

  lemma CloneGraphs(g: Graph, h: Graph, lo: int, hi: int, chain: seq<int>, c: nat)
    requires Region(g, lo, hi) && hi == |g.states| && |h.states| == |h.syms| == hi + c
    requires g.dangling == Members(chain) && h.dangling == Members(ShiftChain(chain, c))
    requires forall i {:trigger g.states[i]} :: lo <= i < hi ==> h.states[i + c] == ShiftState(g.states[i], c)
    requires forall i {:trigger g.syms[i]} :: lo <= i < hi ==> h.syms[i + c] == g.syms[i]
    ensures Shifted(g, h, lo, hi, c)
  {
    var d := ShiftChain(chain, c);
    forall i | lo <= i < hi ensures i + c in h.dangling <==> i in g.dangling {
      if i in g.dangling {
        var k :| 0 <= k < |chain| && chain[k] == i;
        assert d[k] == i + c;
      }
      if i + c in h.dangling {
        var k :| 0 <= k < |d| && d[k] == i + c;
        assert chain[k] == i;
      }
    }
    forall i | lo <= i < hi
      ensures g.syms[i] == h.syms[i + c] && h.states[i + c] == ShiftState(g.states[i], c)
    {
    }
  }

  /** CloneTopOperand: the copied states read the same language, and the original is untouched. */
  lemma CloneOk(st: seq<State>, sy: seq<Symbol>, st': seq<State>, sy': seq<Symbol>,
                f: Frag, e: Regex, chain: seq<int>, c: nat)
    requires FragOk(st, sy, f, |st|, e, chain) && c == |st| - f.minIndex
    requires |st'| == |sy'| == |st| + c
    requires forall i {:trigger st[i]} :: f.minIndex <= i < |st| ==> st'[i + c] == ShiftState(st[i], c)
    requires forall i {:trigger sy[i]} :: f.minIndex <= i < |st| ==> sy'[i + c] == sy[i]
    ensures FragOk(st', sy', Frag(f.start + c, f.out + c, f.minIndex + c), |st'|, e, ShiftChain(chain, c))
  {
    var d := ShiftChain(chain, c);
    var g, h := GraphOf(st, sy, chain), GraphOf(st', sy', d);
    assert IsChain(st', f.out + c, d) by {
      forall k | 0 <= k < |chain|
        ensures 0 <= chain[k] < |st| && chain[k] + c < |st'| && st'[chain[k] + c] == ShiftState(st[chain[k]], c)
      {
        var x := st[chain[k]];
      }
      ChainShift(st, st', f.out, chain, c);
      assert f.out == chain[0];
    }
    assert Shifted(g, h, f.minIndex, |st|, c) by {
      CloneGraphs(g, h, f.minIndex, |st|, chain, c);
    }
    RegionShift(g, h, f.minIndex, |st|, c, f.start);
    assert forall k :: 0 <= k < |d| ==> f.minIndex + c <= d[k] < |st'|;
  }

  /** Every edge leads to a state. */
  ghost predicate Closed(st: seq<State>) {
    forall i {:trigger st[i]} :: 0 <= i < |st| ==>
      && (IsSplit(st[i]) ==> 0 <= st[i].out1 < |st| && 0 <= st[i].out < |st|)
      && (st[i].out != INVALID ==> 0 <= st[i].out < |st|)
  }

  /** Linking the one remaining fragment to the match state gives a graph for the whole pattern. */
  lemma FinishOk(st: seq<State>, sy: seq<Symbol>, st': seq<State>, anySym: Symbol,
                 f: Frag, e: Regex, c: seq<int>, rangeStart: int)
    requires FragOk(st, sy, f, |st|, e, c) && f.minIndex == 0
    requires PatchedStates(st + [State(INVALID, INVALID, rangeStart, 0)], st', c, |st|)
    ensures Closed(st') && forall i :: 0 <= i < |st| ==> st'[i].out != INVALID
    ensures Language(Graph(st', sy + [anySym], {}), f.start) == LangOf(e)
    ensures AllHalt(Graph(st', sy + [anySym], {}), 0, |st'|) <==> LoopsProductive(e)
  {
    var m := |st|;
    var g, h := GraphOf(st, sy, c), Graph(st', sy + [anySym], {});
    assert m !in c;
    assert Closed(st') by {
      forall i | 0 <= i < m
        ensures IsSplit(st'[i]) ==> 0 <= st'[i].out1 < |st'|
        ensures 0 <= st'[i].out < |st'|
      {
        var s := g.states[i];
      }
    }
    PatchedLanguage(g, h, 0, m, m, f.start);
    forall w: Word ensures w in Language(h, m) <==> w == [] {
      if w == [] {
        assert Acc(h, 1, m, w);
      }
    }
    forall w: Word ensures w in Cat(Language(g, f.start), Language(h, m)) <==> w in Language(g, f.start) {
      if w in Cat(Language(g, f.start), Language(h, m)) {
        var k :| SplitsAt(Language(g, f.start), Language(h, m), w, k);
        assert w[..k] == w;
      }
      if w in Language(g, f.start) {
        CatIntro(Language(g, f.start), Language(h, m), w, []);
        assert w + [] == w;
      }
    }
    assert Halts(h, 1, m);
    PatchedHalting(g, h, 0, m, m);
  }

  // ----- The operand stack: consecutive fragments that cover all states -----

  /** Where the states of the first `k` operands end. */
  ghost function Base(st: seq<State>, ops: seq<Frag>, k: nat): int {
    if k < |ops| then ops[k].minIndex else |st|
  }

  ghost predicate OperandOk(st: seq<State>, sy: seq<Symbol>, ops: seq<Frag>, trees: seq<Regex>, chains: seq<seq<int>>, k: nat)
    requires |ops| == |trees| == |chains|
  {
    k < |ops| && FragOk(st, sy, ops[k], Base(st, ops, k + 1), trees[k], chains[k])
  }

  ghost predicate StackOk(st: seq<State>, sy: seq<Symbol>, ops: seq<Frag>, trees: seq<Regex>, chains: seq<seq<int>>) {
    && |ops| == |trees| == |chains|
    && Base(st, ops, 0) == 0
    && |st| == |sy|
    && forall k: nat {:trigger OperandOk(st, sy, ops, trees, chains, k)} :: k < |ops| ==> OperandOk(st, sy, ops, trees, chains, k)
  }

  lemma {:induction false} BasesIncrease(st: seq<State>, sy: seq<Symbol>, ops: seq<Frag>, trees: seq<Regex>, chains: seq<seq<int>>,
                                         j: nat, k: nat)
    requires StackOk(st, sy, ops, trees, chains) && j <= k <= |ops|
    ensures Base(st, ops, j) <= Base(st, ops, k) <= |st|
    decreases k - j
  {
    if j < |ops| {
      assert OperandOk(st, sy, ops, trees, chains, j);
    }
    if j < k {
      BasesIncrease(st, sy, ops, trees, chains, j + 1, k);
    }
  }

  lemma StackKeeps(st: seq<State>, sy: seq<Symbol>, ops: seq<Frag>, trees: seq<Regex>, chains: seq<seq<int>>,
                   st': seq<State>, sy': seq<Symbol>, keep: nat, k: nat)
    requires StackOk(st, sy, ops, trees, chains) && k < keep <= |ops|
    requires |st| <= |st'| == |sy'|
    requires forall i :: 0 <= i < Base(st, ops, keep) ==> i < |st| && st'[i] == st[i] && sy'[i] == sy[i]
    ensures FragOk(st', sy', ops[k], Base(st, ops, k + 1), trees[k], chains[k])
  {
    BasesIncrease(st, sy, ops, trees, chains, k + 1, keep);
    assert OperandOk(st, sy, ops, trees, chains, k);
    FragFrame(st, sy, st', sy', ops[k], Base(st, ops, k + 1), trees[k], chains[k]);
  }

  /** Replacing everything from operand `keep` on by one new fragment. */
  lemma StackReplace(st: seq<State>, sy: seq<Symbol>, ops: seq<Frag>, trees: seq<Regex>, chains: seq<seq<int>>,
                     st': seq<State>, sy': seq<Symbol>, keep: nat, f: Frag, e: Regex, c: seq<int>)
    requires StackOk(st, sy, ops, trees, chains) && keep <= |ops|
    requires |st| <= |st'| == |sy'|
    requires f.minIndex == Base(st, ops, keep) && FragOk(st', sy', f, |st'|, e, c)
    requires forall i :: 0 <= i < f.minIndex ==> i < |st| && st'[i] == st[i] && sy'[i] == sy[i]
    ensures StackOk(st', sy', ops[..keep] + [f], trees[..keep] + [e], chains[..keep] + [c])
  {
    hide FragOk;
    var ops', trees', chains' := ops[..keep] + [f], trees[..keep] + [e], chains[..keep] + [c];
    forall k: nat | k < |ops'|
      ensures OperandOk(st', sy', ops', trees', chains', k)
    {
      if k < keep {
        StackKeeps(st, sy, ops, trees, chains, st', sy', keep, k);
        assert Base(st', ops', k + 1) == Base(st, ops, k + 1);
      }
    }
  }

  /** Only the meaning of a tree matters to the fragment it describes. */
  lemma StackRename(st: seq<State>, sy: seq<Symbol>, ops: seq<Frag>, trees: seq<Regex>, chains: seq<seq<int>>, e: Regex)
    requires StackOk(st, sy, ops, trees, chains) && |ops| > 0
    requires LangOf(e) == LangOf(trees[|ops| - 1]) && (LoopsProductive(e) <==> LoopsProductive(trees[|ops| - 1]))
    ensures StackOk(st, sy, ops, trees[..|ops| - 1] + [e], chains)
  {
    var trees' := trees[..|ops| - 1] + [e];
    forall k: nat | k < |ops| ensures OperandOk(st, sy, ops, trees', chains, k) {
      assert OperandOk(st, sy, ops, trees, chains, k);
    }
  }
}
