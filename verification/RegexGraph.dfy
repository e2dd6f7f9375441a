/** The state graph built by internal/regex.h: paths through it, and where AddState's recursion ends. */
module RegexGraph {
  import opened RegexLanguage

  /** `~SizeType(0)`, read as a signed number. */
  const INVALID: int := -1

  datatype State = State(out: int, out1: int, rangeStart: int, codepoint: nat)

  /**
   * States with the symbol each one reads. The `out` field of a dangling state
   * is not an edge yet: leaving a dangling state by `out` leaves the graph.
   */
  datatype Graph = Graph(states: seq<State>, syms: seq<Symbol>, dangling: set<int>)

  ghost predicate IsSplit(s: State) {
    s.out1 != INVALID
  }

  /** A path of at most `n` states from state `i` reads exactly `w` and leaves (or ends in the match state). */
  ghost predicate Acc(g: Graph, n: nat, i: int, w: Word)
    decreases n
  {
    n > 0 && 0 <= i < |g.states| == |g.syms| &&
    var s := g.states[i];
    if IsSplit(s) then
      (if i in g.dangling then w == [] else Acc(g, n - 1, s.out, w)) || Acc(g, n - 1, s.out1, w)
    else if i in g.dangling then
      |w| == 1 && Reads(g.syms[i], w[0])
    else if s.out == INVALID then
      w == []
    else
      |w| > 0 && Reads(g.syms[i], w[0]) && Acc(g, n - 1, s.out, w[1..])
  }

  ghost predicate Accepts(g: Graph, i: int, w: Word) {
    exists n: nat :: Acc(g, n, i, w)
  }

  ghost function Language(g: Graph, i: int): Lang {
    iset w: Word | Accepts(g, i, w)
  }

  /** Following split edges from `i` ends within `n` states. */
  ghost predicate Halts(g: Graph, n: nat, i: int)
    decreases n
  {
    n > 0 && 0 <= i < |g.states| &&
    var s := g.states[i];
    IsSplit(s) ==> (i in g.dangling || Halts(g, n - 1, s.out)) && Halts(g, n - 1, s.out1)
  }

  ghost predicate Halting(g: Graph, i: int) {
    exists n: nat :: Halts(g, n, i)
  }

  ghost predicate AllHalt(g: Graph, lo: int, hi: int) {
    forall i :: lo <= i < hi ==> Halting(g, i)
  }

  /** Every edge of a state in `lo..hi` stays in `lo..hi`. */
  ghost predicate Region(g: Graph, lo: int, hi: int) {
    && 0 <= lo <= hi <= |g.states| == |g.syms|
    && forall i {:trigger g.states[i]} :: lo <= i < hi ==>
         && (IsSplit(g.states[i]) ==> lo <= g.states[i].out1 < hi)
         && (i !in g.dangling ==> lo <= g.states[i].out < hi)
  }

  lemma {:induction false} AccMono(g: Graph, n: nat, m: nat, i: int, w: Word)
    requires n <= m && Acc(g, n, i, w)
    ensures Acc(g, m, i, w)
    decreases n
  {
    var s := g.states[i];
    if IsSplit(s) {
      if i !in g.dangling && Acc(g, n - 1, s.out, w) {
        AccMono(g, n - 1, m - 1, s.out, w);
      }
      if Acc(g, n - 1, s.out1, w) {
        AccMono(g, n - 1, m - 1, s.out1, w);
      }
    } else if i !in g.dangling && s.out != INVALID {
      AccMono(g, n - 1, m - 1, s.out, w[1..]);
    }
  }

  lemma {:induction false} HaltsMono(g: Graph, n: nat, m: nat, i: int)
    requires n <= m && Halts(g, n, i)
    ensures Halts(g, m, i)
    decreases n
  {
    var s := g.states[i];
    if IsSplit(s) {
      if i !in g.dangling {
        HaltsMono(g, n - 1, m - 1, s.out);
      }
      HaltsMono(g, n - 1, m - 1, s.out1);
    }
  }

  // ----- A region does not care about the rest of the graph -----

  ghost predicate Agree(g: Graph, h: Graph, lo: int, hi: int) {
    && 0 <= lo <= hi <= |g.states| == |g.syms|
    && hi <= |h.states| == |h.syms|
    && forall i {:trigger g.states[i]} {:trigger h.states[i]} :: lo <= i < hi ==>
         && h.states[i].out1 == g.states[i].out1
         && h.syms[i] == g.syms[i]
         && (i in h.dangling <==> i in g.dangling)
         && (i !in g.dangling ==> h.states[i].out == g.states[i].out)
  }

  lemma {:induction false} AccAgree(g: Graph, h: Graph, lo: int, hi: int, n: nat, i: int, w: Word)
    requires Region(g, lo, hi) && Agree(g, h, lo, hi) && lo <= i < hi
    ensures Acc(g, n, i, w) <==> Acc(h, n, i, w)
    decreases n
  {
    if n > 0 {
      var s := g.states[i];
      assert h.states[i].out1 == s.out1;
      if IsSplit(s) {
        if i !in g.dangling {
          AccAgree(g, h, lo, hi, n - 1, s.out, w);
        }
        AccAgree(g, h, lo, hi, n - 1, s.out1, w);
      } else if i !in g.dangling && |w| > 0 {
        AccAgree(g, h, lo, hi, n - 1, s.out, w[1..]);
      }
    }
  }

  lemma {:induction false} HaltsAgree(g: Graph, h: Graph, lo: int, hi: int, n: nat, i: int)
    requires Region(g, lo, hi) && Agree(g, h, lo, hi) && lo <= i < hi
    ensures Halts(g, n, i) <==> Halts(h, n, i)
    decreases n
  {
    if n > 0 {
      var s := g.states[i];
      assert h.states[i].out1 == s.out1;
      if IsSplit(s) {
        if i !in g.dangling {
          HaltsAgree(g, h, lo, hi, n - 1, s.out);
        }
        HaltsAgree(g, h, lo, hi, n - 1, s.out1);
      }
    }
  }

  lemma RegionAgree(g: Graph, h: Graph, lo: int, hi: int)
    requires Region(g, lo, hi) && Agree(g, h, lo, hi)
    ensures Region(h, lo, hi)
    ensures forall i :: lo <= i < hi ==> Language(h, i) == Language(g, i)
    ensures forall i :: lo <= i < hi ==> (Halting(h, i) <==> Halting(g, i))
    ensures AllHalt(h, lo, hi) <==> AllHalt(g, lo, hi)
  {
    forall i | lo <= i < hi ensures Language(h, i) == Language(g, i) {
      forall n: nat, w: Word ensures Acc(g, n, i, w) <==> Acc(h, n, i, w) {
        AccAgree(g, h, lo, hi, n, i, w);
      }
    }
    forall i | lo <= i < hi ensures Halting(h, i) <==> Halting(g, i) {
      forall n: nat ensures Halts(g, n, i) <==> Halts(h, n, i) {
        HaltsAgree(g, h, lo, hi, n, i);
      }
    }
    assert Region(h, lo, hi) by {
      forall i | lo <= i < hi
        ensures (IsSplit(h.states[i]) ==> lo <= h.states[i].out1 < hi)
        ensures i !in h.dangling ==> lo <= h.states[i].out < hi
      {
        assert h.states[i].out1 == g.states[i].out1;
      }
    }
  }

  // ----- A copy of a region, `c` states further on -----

  ghost predicate Shifted(g: Graph, h: Graph, lo: int, hi: int, c: nat) {
    && 0 <= lo <= hi <= |g.states| == |g.syms|
    && hi + c <= |h.states| == |h.syms|
    && forall i {:trigger g.states[i]} {:trigger h.states[i + c]} :: lo <= i < hi ==>
         && (IsSplit(g.states[i]) <==> IsSplit(h.states[i + c]))
         && (IsSplit(g.states[i]) ==> h.states[i + c].out1 == g.states[i].out1 + c)
         && h.syms[i + c] == g.syms[i]
         && (i + c in h.dangling <==> i in g.dangling)
         && (i !in g.dangling ==> h.states[i + c].out == g.states[i].out + c)
  }

  lemma {:induction false} AccShift(g: Graph, h: Graph, lo: int, hi: int, c: nat, n: nat, i: int, w: Word)
    requires Region(g, lo, hi) && Shifted(g, h, lo, hi, c) && lo <= i < hi
    ensures Acc(g, n, i, w) <==> Acc(h, n, i + c, w)
    decreases n
  {
    if n > 0 {
      var s := g.states[i];
      var t := h.states[i + c];
      if IsSplit(s) {
        if i !in g.dangling {
          AccShift(g, h, lo, hi, c, n - 1, s.out, w);
        }
        AccShift(g, h, lo, hi, c, n - 1, s.out1, w);
      } else if i !in g.dangling && |w| > 0 {
        AccShift(g, h, lo, hi, c, n - 1, s.out, w[1..]);
      }
    }
  }

  lemma {:induction false} HaltsShift(g: Graph, h: Graph, lo: int, hi: int, c: nat, n: nat, i: int)
    requires Region(g, lo, hi) && Shifted(g, h, lo, hi, c) && lo <= i < hi
    ensures Halts(g, n, i) <==> Halts(h, n, i + c)
    decreases n
  {
    if n > 0 {
      var s := g.states[i];
      var t := h.states[i + c];
      if IsSplit(s) {
        if i !in g.dangling {
          HaltsShift(g, h, lo, hi, c, n - 1, s.out);
        }
        HaltsShift(g, h, lo, hi, c, n - 1, s.out1);
      }
    }
  }

  lemma LanguageShift(g: Graph, h: Graph, lo: int, hi: int, c: nat, i: int)
    requires Region(g, lo, hi) && Shifted(g, h, lo, hi, c) && lo <= i < hi
    ensures Language(h, i + c) == Language(g, i)
  {
    forall w: Word ensures w in Language(h, i + c) <==> w in Language(g, i) {
      if w in Language(h, i + c) {
        var n: nat :| Acc(h, n, i + c, w);
        AccShift(g, h, lo, hi, c, n, i, w);
      }
      if w in Language(g, i) {
        var n: nat :| Acc(g, n, i, w);
        AccShift(g, h, lo, hi, c, n, i, w);
      }
    }
  }

  lemma HaltingShift(g: Graph, h: Graph, lo: int, hi: int, c: nat, i: int)
    requires Region(g, lo, hi) && Shifted(g, h, lo, hi, c) && lo <= i < hi
    ensures Halting(h, i + c) <==> Halting(g, i)
  {
    if Halting(h, i + c) {
      var n: nat :| Halts(h, n, i + c);
      HaltsShift(g, h, lo, hi, c, n, i);
    }
    if Halting(g, i) {
      var n: nat :| Halts(g, n, i);
      HaltsShift(g, h, lo, hi, c, n, i);
    }
  }

  lemma RegionShift(g: Graph, h: Graph, lo: int, hi: int, c: nat, start: int)
    requires Region(g, lo, hi) && Shifted(g, h, lo, hi, c) && lo <= start < hi
    ensures Region(h, lo + c, hi + c)
    ensures Language(h, start + c) == Language(g, start)
    ensures AllHalt(h, lo + c, hi + c) <==> AllHalt(g, lo, hi)
  {
    forall i | lo + c <= i < hi + c
      ensures (IsSplit(h.states[i]) ==> lo + c <= h.states[i].out1 < hi + c)
      ensures i !in h.dangling ==> lo + c <= h.states[i].out < hi + c
    {
      var s, t := g.states[i - c], h.states[i - c + c];
    }
    LanguageShift(g, h, lo, hi, c, start);
    forall i | lo <= i < hi ensures Halting(h, i + c) <==> Halting(g, i) {
      HaltingShift(g, h, lo, hi, c, i);
    }
    if AllHalt(h, lo + c, hi + c) {
      forall i | lo <= i < hi ensures Halting(g, i) {
        assert Halting(h, i + c);
      }
    }
    if AllHalt(g, lo, hi) {
      forall i | lo + c <= i < hi + c ensures Halting(h, i) {
        assert Halting(g, i - c) && i - c + c == i;
      }
    }
  }

  // ----- Patching: the dangling exits of a region all lead to state `t` -----

  ghost predicate Patched(g: Graph, h: Graph, lo: int, hi: int, t: int) {
    && 0 <= lo <= hi <= |g.states| == |g.syms|
    && hi <= |h.states| == |h.syms|
    && t != INVALID
    && forall i {:trigger g.states[i]} {:trigger h.states[i]} :: lo <= i < hi ==>
         && h.states[i].out1 == g.states[i].out1
         && h.syms[i] == g.syms[i]
         && i !in h.dangling
         && h.states[i].out == (if i in g.dangling then t else g.states[i].out)
  }

  lemma {:induction false} AccThrough(g: Graph, h: Graph, lo: int, hi: int, t: int,
                                      n: nat, i: int, u: Word, m: nat, v: Word)
    requires Region(g, lo, hi) && Patched(g, h, lo, hi, t) && lo <= i < hi
    requires Acc(g, n, i, u) && Acc(h, m, t, v)
    ensures Acc(h, n + m, i, u + v)
    decreases n
  {
    var s := g.states[i];
    assert h.states[i].out1 == s.out1;
    if IsSplit(s) {
      if i in g.dangling && u == [] {
        assert u + v == v;
        AccMono(h, m, n + m - 1, t, v);
      } else if i !in g.dangling && Acc(g, n - 1, s.out, u) {
        AccThrough(g, h, lo, hi, t, n - 1, s.out, u, m, v);
      } else {
        AccThrough(g, h, lo, hi, t, n - 1, s.out1, u, m, v);
      }
    } else if i in g.dangling {
      assert (u + v)[1..] == v;
      AccMono(h, m, n + m - 1, t, v);
    } else {
      assert (u + v)[1..] == u[1..] + v;
      AccThrough(g, h, lo, hi, t, n - 1, s.out, u[1..], m, v);
    }
  }

  /** A path that starts in the patched region either exits through `t` at some point of the word, or is not there. */
  lemma {:induction false} AccSplit(g: Graph, h: Graph, lo: int, hi: int, t: int, n: nat, i: int, w: Word)
    returns (k: nat, m: nat)
    requires Region(g, lo, hi) && Patched(g, h, lo, hi, t) && lo <= i < hi
    requires Acc(h, n, i, w)
    ensures k <= |w| && m < n && Acc(g, n, i, w[..k]) && Acc(h, m, t, w[k..])
    decreases n
  {
    var s := g.states[i];
    assert h.states[i].out1 == s.out1;
    if IsSplit(s) {
      if i in g.dangling && Acc(h, n - 1, t, w) {
        k, m := 0, n - 1;
        assert w[0..] == w;
      } else if i !in g.dangling && Acc(h, n - 1, s.out, w) {
        k, m := AccSplit(g, h, lo, hi, t, n - 1, s.out, w);
      } else {
        k, m := AccSplit(g, h, lo, hi, t, n - 1, s.out1, w);
      }
    } else if i in g.dangling {
      k, m := 1, n - 1;
    } else {
      var k', m' := AccSplit(g, h, lo, hi, t, n - 1, s.out, w[1..]);
      k, m := k' + 1, m';
      assert w[..k][1..] == w[1..][..k'] && w[1..][k'..] == w[k..];
    }
  }

  /** Language of a patched region: what the region reads, then what `t` reads. */
  lemma PatchedLanguage(g: Graph, h: Graph, lo: int, hi: int, t: int, i: int)
    requires Region(g, lo, hi) && Patched(g, h, lo, hi, t) && lo <= i < hi
    ensures Language(h, i) == Cat(Language(g, i), Language(h, t))
  {
    var a, b := Language(g, i), Language(h, t);
    forall w: Word ensures w in Language(h, i) <==> w in Cat(a, b) {
      if w in Language(h, i) {
        var n: nat :| Acc(h, n, i, w);
        var k, m := AccSplit(g, h, lo, hi, t, n, i, w);
        assert SplitsAt(a, b, w, k);
      }
      if w in Cat(a, b) {
        var k :| SplitsAt(a, b, w, k);
        var n: nat :| Acc(g, n, i, w[..k]);
        var m: nat :| Acc(h, m, t, w[k..]);
        AccThrough(g, h, lo, hi, t, n, i, w[..k], m, w[k..]);
        assert w[..k] + w[k..] == w;
      }
    }
  }

  // ----- Loops: the patched region's exits lead to a split `t` that re-enters at `start` -----

  ghost predicate LoopBack(h: Graph, t: int, start: int) {
    && 0 <= t < |h.states| == |h.syms|
    && t in h.dangling
    && start != INVALID
    && h.states[t].out1 == start
  }

  lemma {:induction false} LoopUnroll(g: Graph, h: Graph, lo: int, hi: int, t: int, start: int, n: nat, w: Word)
    returns (j: nat)
    requires Region(g, lo, hi) && Patched(g, h, lo, hi, t) && lo <= start < hi
    requires LoopBack(h, t, start) && Acc(h, n, t, w)
    ensures w in Power(Language(g, start), j)
    decreases n
  {
    var a := Language(g, start);
    if w == [] {
      j := 0;
    } else {
      var k, m := AccSplit(g, h, lo, hi, t, n - 1, start, w);
      var j' := LoopUnroll(g, h, lo, hi, t, start, m, w[k..]);
      j := j' + 1;
      assert SplitsAt(a, Power(a, j'), w, k);
    }
  }

  lemma {:induction false} LoopRoll(g: Graph, h: Graph, lo: int, hi: int, t: int, start: int, j: nat, w: Word)
    requires Region(g, lo, hi) && Patched(g, h, lo, hi, t) && lo <= start < hi
    requires LoopBack(h, t, start) && w in Power(Language(g, start), j)
    ensures Accepts(h, t, w)
    decreases j
  {
    var a := Language(g, start);
    if j == 0 {
      assert Acc(h, 1, t, w);
    } else {
      var k :| SplitsAt(a, Power(a, j - 1), w, k);
      LoopRoll(g, h, lo, hi, t, start, j - 1, w[k..]);
      var n: nat :| Acc(g, n, start, w[..k]);
      var m: nat :| Acc(h, m, t, w[k..]);
      AccThrough(g, h, lo, hi, t, n, start, w[..k], m, w[k..]);
      assert w[..k] + w[k..] == w;
      assert Acc(h, n + m + 1, t, w);
    }
  }

  lemma LoopLanguage(g: Graph, h: Graph, lo: int, hi: int, t: int, start: int)
    requires Region(g, lo, hi) && Patched(g, h, lo, hi, t) && lo <= start < hi
    requires LoopBack(h, t, start)
    ensures Language(h, t) == TimesOrMore(Language(g, start), 0)
    ensures Language(h, start) == TimesOrMore(Language(g, start), 1)
  {
    var a := Language(g, start);
    forall w: Word ensures w in Language(h, t) <==> w in TimesOrMore(a, 0) {
      if w in Language(h, t) {
        var n: nat :| Acc(h, n, t, w);
        var j := LoopUnroll(g, h, lo, hi, t, start, n, w);
      }
      if w in TimesOrMore(a, 0) {
        var j: nat :| w in Power(a, j);
        LoopRoll(g, h, lo, hi, t, start, j, w);
      }
    }
    PatchedLanguage(g, h, lo, hi, t, start);
    CatTimesOrMore(a, 0);
  }

  // ----- Where the recursion over splits ends -----

  lemma {:induction false} HaltsThrough(g: Graph, h: Graph, lo: int, hi: int, t: int, n: nat, i: int, m: nat)
    requires Region(g, lo, hi) && Patched(g, h, lo, hi, t) && lo <= i < hi
    requires Halts(g, n, i) && Halts(h, m, t)
    ensures Halts(h, n + m, i)
    decreases n
  {
    var s := g.states[i];
    assert h.states[i].out1 == s.out1;
    if IsSplit(s) {
      if i in g.dangling {
        HaltsMono(h, m, n + m - 1, t);
      } else {
        HaltsThrough(g, h, lo, hi, t, n - 1, s.out, m);
      }
      HaltsThrough(g, h, lo, hi, t, n - 1, s.out1, m);
    }
  }

  lemma {:induction false} HaltsInside(g: Graph, h: Graph, lo: int, hi: int, t: int, n: nat, i: int)
    requires Region(g, lo, hi) && Patched(g, h, lo, hi, t) && lo <= i < hi
    requires Halts(h, n, i)
    ensures Halts(g, n, i)
    decreases n
  {
    var s := g.states[i];
    assert h.states[i].out1 == s.out1;
    if IsSplit(s) {
      if i !in g.dangling {
        HaltsInside(g, h, lo, hi, t, n - 1, s.out);
      }
      HaltsInside(g, h, lo, hi, t, n - 1, s.out1);
    }
  }

  /** From a state that cannot leave on the empty word, the walk over splits never gets to `t`. */
  lemma {:induction false} HaltsAvoiding(g: Graph, h: Graph, lo: int, hi: int, t: int, n: nat, i: int)
    requires Region(g, lo, hi) && Patched(g, h, lo, hi, t) && lo <= i < hi
    requires Halts(g, n, i) && !Accepts(g, i, [])
    ensures Halts(h, n, i)
    decreases n
  {
    var s := g.states[i];
    assert h.states[i].out1 == s.out1;
    if IsSplit(s) {
      assert i in g.dangling ==> Acc(g, 1, i, []);
      if Accepts(g, s.out, []) {
        var k: nat :| Acc(g, k, s.out, []);
        assert Acc(g, k + 1, i, []);
      }
      if Accepts(g, s.out1, []) {
        var k: nat :| Acc(g, k, s.out1, []);
        assert Acc(g, k + 1, i, []);
      }
      HaltsAvoiding(g, h, lo, hi, t, n - 1, s.out);
      HaltsAvoiding(g, h, lo, hi, t, n - 1, s.out1);
    }
  }

  /** From a state that can leave on the empty word, the walk over splits gets to `t`. */
  lemma {:induction false} HaltsReaching(g: Graph, h: Graph, lo: int, hi: int, t: int, n: nat, i: int, m: nat)
    returns (k: nat)
    requires Region(g, lo, hi) && Patched(g, h, lo, hi, t) && lo <= i < hi
    requires Acc(g, n, i, []) && Halts(h, m, i)
    ensures k < m && Halts(h, k, t)
    decreases n
  {
    var s := g.states[i];
    assert h.states[i].out1 == s.out1;
    if i in g.dangling {
      k := m - 1;
    } else if Acc(g, n - 1, s.out, []) {
      k := HaltsReaching(g, h, lo, hi, t, n - 1, s.out, m - 1);
    } else {
      k := HaltsReaching(g, h, lo, hi, t, n - 1, s.out1, m - 1);
    }
  }

  lemma PatchedHalting(g: Graph, h: Graph, lo: int, hi: int, t: int)
    requires Region(g, lo, hi) && Patched(g, h, lo, hi, t) && Halting(h, t)
    ensures AllHalt(h, lo, hi) <==> AllHalt(g, lo, hi)
  {
    forall i | lo <= i < hi ensures Halting(h, i) <==> Halting(g, i) {
      if Halting(h, i) {
        var n: nat :| Halts(h, n, i);
        HaltsInside(g, h, lo, hi, t, n, i);
      }
      if Halting(g, i) {
        var n: nat :| Halts(g, n, i);
        var m: nat :| Halts(h, m, t);
        HaltsThrough(g, h, lo, hi, t, n, i, m);
      }
    }
  }

  /** A loop makes the splits cyclic exactly when its body can match the empty word. */
  lemma LoopHalting(g: Graph, h: Graph, lo: int, hi: int, t: int, start: int)
    requires Region(g, lo, hi) && Patched(g, h, lo, hi, t) && lo <= start < hi
    requires LoopBack(h, t, start)
    ensures AllHalt(h, lo, hi) && Halting(h, t) <==> AllHalt(g, lo, hi) && [] !in Language(g, start)
  {
    if AllHalt(g, lo, hi) && [] !in Language(g, start) {
      assert Halting(g, start);
      var n: nat :| Halts(g, n, start);
      HaltsAvoiding(g, h, lo, hi, t, n, start);
      assert Halts(h, n + 1, t);
      PatchedHalting(g, h, lo, hi, t);
    }
    if AllHalt(h, lo, hi) && Halting(h, t) {
      PatchedHalting(g, h, lo, hi, t);
      if [] in Language(g, start) {
        var n: nat :| Acc(g, n, start, []);
        var m: nat :| Halts(h, m, t);
        NoHalting(g, h, lo, hi, t, start, n, m);
      }
    }
  }

  lemma {:induction false} NoHalting(g: Graph, h: Graph, lo: int, hi: int, t: int, start: int, n: nat, m: nat)
    requires Region(g, lo, hi) && Patched(g, h, lo, hi, t) && lo <= start < hi
    requires LoopBack(h, t, start) && Acc(g, n, start, [])
    ensures !Halts(h, m, t)
    decreases m
  {
    if Halts(h, m, t) {
      var k := HaltsReaching(g, h, lo, hi, t, n, start, m - 1);
      NoHalting(g, h, lo, hi, t, start, n, k);
    }
  }
}
