/** The set of states a simulation of the finished graph keeps, and what it says about the input. */
module RegexSimulation {
  import opened RegexLanguage
  import opened RegexGraph
  import opened RegexFragments

  /** A finished graph on which AddState always returns. */
  ghost predicate Simulable(g: Graph) {
    && g.dangling == {} && |g.states| == |g.syms|
    && Closed(g.states)
    && AllHalt(g, 0, |g.states|)
  }

  /** The non-split states reached from `i` over splits. */
  ghost function Leaves(g: Graph, n: nat, i: int): set<int>
    requires g.dangling == {} && Halts(g, n, i)
    decreases n
  {
    if IsSplit(g.states[i]) then Leaves(g, n - 1, g.states[i].out) + Leaves(g, n - 1, g.states[i].out1) else {i}
  }

  lemma {:induction false} LeavesFuel(g: Graph, n: nat, m: nat, i: int)
    requires g.dangling == {} && Halts(g, n, i) && Halts(g, m, i)
    ensures Leaves(g, n, i) == Leaves(g, m, i)
    decreases n
  {
    if IsSplit(g.states[i]) {
      LeavesFuel(g, n - 1, m - 1, g.states[i].out);
      LeavesFuel(g, n - 1, m - 1, g.states[i].out1);
    }
  }

  ghost function Closure(g: Graph, i: int): set<int>
    requires Simulable(g) && 0 <= i < |g.states|
  {
    assert Halting(g, i);
    var n: nat :| Halts(g, n, i);
    Leaves(g, n, i)
  }

  lemma ClosureIs(g: Graph, n: nat, i: int)
    requires Simulable(g) && Halts(g, n, i)
    ensures 0 <= i < |g.states| && Closure(g, i) == Leaves(g, n, i)
  {
    forall m: nat | Halts(g, m, i) ensures Leaves(g, n, i) == Leaves(g, m, i) {
      LeavesFuel(g, n, m, i);
    }
  }

  lemma {:induction false} LeavesAreStates(g: Graph, n: nat, i: int)
    requires Simulable(g) && Halts(g, n, i)
    ensures Leaves(g, n, i) != {}
    ensures forall m :: m in Leaves(g, n, i) ==> 0 <= m < |g.states| && !IsSplit(g.states[m])
    decreases n
  {
    if IsSplit(g.states[i]) {
      LeavesAreStates(g, n - 1, g.states[i].out);
      LeavesAreStates(g, n - 1, g.states[i].out1);
      assert Leaves(g, n - 1, g.states[i].out) <= Leaves(g, n, i);
    } else {
      assert i in Leaves(g, n, i);
    }
  }

  lemma {:induction false} LeavesAccept(g: Graph, n: nat, i: int, w: Word)
    requires Simulable(g) && Halts(g, n, i)
    ensures Accepts(g, i, w) <==> exists m :: m in Leaves(g, n, i) && Accepts(g, m, w)
    decreases n
  {
    var s := g.states[i];
    if IsSplit(s) {
      LeavesAccept(g, n - 1, s.out, w);
      LeavesAccept(g, n - 1, s.out1, w);
      SplitLanguage(g, i);
      assert w in Language(g, i) <==> w in Language(g, s.out1) || w in Language(g, s.out);
    } else {
      assert Leaves(g, n, i) == {i};
    }
  }

  lemma ClosureAccepts(g: Graph, i: int, w: Word)
    requires Simulable(g) && 0 <= i < |g.states|
    ensures Accepts(g, i, w) <==> exists m :: m in Closure(g, i) && Accepts(g, m, w)
    ensures Closure(g, i) != {}
    ensures forall m :: m in Closure(g, i) ==> 0 <= m < |g.states| && !IsSplit(g.states[m])
  {
    assert Halting(g, i);
    var n: nat :| Halts(g, n, i);
    ClosureIs(g, n, i);
    LeavesAccept(g, n, i, w);
    LeavesAreStates(g, n, i);
  }

  /** A non-split state reads `c` and goes on, or is the match state. */
  ghost predicate Fires(g: Graph, i: int, c: CodePoint)
    requires 0 <= i < |g.states| == |g.syms|
  {
    !IsSplit(g.states[i]) && g.states[i].out != INVALID && Reads(g.syms[i], c)
  }

  lemma LeafAccepts(g: Graph, i: int, w: Word)
    requires Simulable(g) && 0 <= i < |g.states| && !IsSplit(g.states[i])
    ensures Accepts(g, i, w) <==>
            if g.states[i].out == INVALID then w == []
            else w != [] && Fires(g, i, w[0]) && Accepts(g, g.states[i].out, w[1..])
  {
    var out := g.states[i].out;
    if Accepts(g, i, w) {
      var n: nat :| Acc(g, n, i, w);
      assert out != INVALID ==> Acc(g, n - 1, out, w[1..]);
    }
    if out == INVALID && w == [] {
      assert Acc(g, 1, i, w);
    }
    if out != INVALID && w != [] && Fires(g, i, w[0]) && Accepts(g, out, w[1..]) {
      var n: nat :| Acc(g, n, out, w[1..]);
      assert Acc(g, n + 1, i, w);
    }
  }

  // ----- One character of the simulation -----

  ghost predicate States(g: Graph, s: set<int>) {
    |g.states| == |g.syms| && forall i :: i in s ==> 0 <= i < |g.states| && !IsSplit(g.states[i])
  }

  ghost function Moved(g: Graph, s: set<int>, c: CodePoint): set<int>
    requires Simulable(g) && States(g, s)
  {
    MovedBelow(g, s, c, |g.states|)
  }

  /** The states reached from the firing states of `s` below `n`. */
  ghost function MovedBelow(g: Graph, s: set<int>, c: CodePoint, n: nat): set<int>
    requires Simulable(g) && n <= |g.states|
  {
    if n == 0 then {}
    else MovedBelow(g, s, c, n - 1) + if n - 1 in s && Fires(g, n - 1, c) then Closure(g, g.states[n - 1].out) else {}
  }

  lemma {:induction false} MovedFrom(g: Graph, s: set<int>, c: CodePoint, n: nat, m: int)
    requires Simulable(g) && n <= |g.states|
    ensures m in MovedBelow(g, s, c, n) <==> exists i :: 0 <= i < n && i in s && Fires(g, i, c) && m in Closure(g, g.states[i].out)
  {
    if n > 0 {
      MovedFrom(g, s, c, n - 1, m);
    }
  }

  lemma MovedTo(g: Graph, s: set<int>, c: CodePoint, i: int)
    requires Simulable(g) && States(g, s) && i in s && Fires(g, i, c)
    ensures Closure(g, g.states[i].out) <= Moved(g, s, c)
  {
    forall m | m in Closure(g, g.states[i].out) ensures m in Moved(g, s, c) {
      MovedFrom(g, s, c, |g.states|, m);
    }
  }

  ghost function Next(g: Graph, s: set<int>, c: CodePoint, root: int, anchored: bool): set<int>
    requires Simulable(g) && States(g, s) && 0 <= root < |g.states|
  {
    Moved(g, s, c) + (if anchored || s == {} then {} else Closure(g, root))
  }

  lemma NextOfNone(g: Graph, c: CodePoint, root: int, anchored: bool)
    requires Simulable(g) && 0 <= root < |g.states|
    ensures Moved(g, {}, c) == {} && Next(g, {}, c, root, anchored) == {}
  {
    forall m ensures m !in Moved(g, {}, c) {
      MovedFrom(g, {}, c, |g.states|, m);
    }
  }

  lemma NextStates(g: Graph, s: set<int>, c: CodePoint, root: int, anchored: bool)
    requires Simulable(g) && States(g, s) && 0 <= root < |g.states|
    ensures States(g, Moved(g, s, c)) && States(g, Next(g, s, c, root, anchored))
  {
    forall m | m in Moved(g, s, c)
      ensures 0 <= m < |g.states| && !IsSplit(g.states[m])
    {
      MovedFrom(g, s, c, |g.states|, m);
      var i :| 0 <= i < |g.states| && i in s && Fires(g, i, c) && m in Closure(g, g.states[i].out);
      ClosureAccepts(g, g.states[i].out, []);
    }
    ClosureAccepts(g, root, []);
  }

  /** The states after reading `w`. */
  ghost function Active(g: Graph, root: int, anchored: bool, w: Word): (s: set<int>)
    requires Simulable(g) && 0 <= root < |g.states|
    ensures States(g, s)
    decreases |w|
  {
    if w == [] then
      ClosureAccepts(g, root, []);
      Closure(g, root)
    else
      var s := Active(g, root, anchored, w[..|w| - 1]);
      NextStates(g, s, w[|w| - 1], root, anchored);
      Next(g, s, w[|w| - 1], root, anchored)
  }

  ghost predicate SomeAccepts(g: Graph, s: set<int>, v: Word) {
    exists i :: i in s && Accepts(g, i, v)
  }

  lemma MovedAccepts(g: Graph, s: set<int>, c: CodePoint, v: Word)
    requires Simulable(g) && States(g, s)
    ensures SomeAccepts(g, Moved(g, s, c), v) <==> SomeAccepts(g, s, [c] + v)
  {
    var cv := [c] + v;
    assert cv[0] == c && cv[1..] == v;
    if SomeAccepts(g, Moved(g, s, c), v) {
      var m :| m in Moved(g, s, c) && Accepts(g, m, v);
      MovedFrom(g, s, c, |g.states|, m);
      var i :| 0 <= i < |g.states| && i in s && Fires(g, i, c) && m in Closure(g, g.states[i].out);
      ClosureAccepts(g, g.states[i].out, v);
      LeafAccepts(g, i, cv);
      assert Accepts(g, i, cv);
    }
    if SomeAccepts(g, s, cv) {
      var i :| i in s && Accepts(g, i, cv);
      LeafAccepts(g, i, cv);
      ClosureAccepts(g, g.states[i].out, v);
      MovedTo(g, s, c, i);
    }
  }

  /** Some start position allowed by the anchor begins a match that spells `w` from there on, and then `v`. */
  ghost predicate SomeStart(g: Graph, root: int, anchored: bool, w: Word, v: Word) {
    exists k :: StartsAt(g, root, anchored, w, v, k)
  }

  ghost predicate StartsAt(g: Graph, root: int, anchored: bool, w: Word, v: Word, k: int) {
    0 <= k <= |w| && (anchored ==> k == 0) && Accepts(g, root, w[k..] + v)
  }

  /** The active states accept exactly the continuations that complete a match begun earlier. */
  lemma {:induction false} ActiveMeaning(g: Graph, root: int, anchored: bool, w: Word, v: Word)
    requires Simulable(g) && 0 <= root < |g.states|
    ensures SomeAccepts(g, Active(g, root, anchored, w), v) <==> SomeStart(g, root, anchored, w, v)
    ensures !anchored ==> Active(g, root, anchored, w) != {}
    decreases |w|
  {
    ClosureAccepts(g, root, v);
    if w == [] {
      assert w[0..] + v == v;
      assert SomeStart(g, root, anchored, w, v) <==> StartsAt(g, root, anchored, w, v, 0);
    } else {
      var u, c := w[..|w| - 1], w[|w| - 1];
      var s := Active(g, root, anchored, u);
      ActiveMeaning(g, root, anchored, u, [c] + v);
      MovedAccepts(g, s, c, v);
      forall k | 0 <= k <= |u|
        ensures StartsAt(g, root, anchored, u, [c] + v, k) <==> StartsAt(g, root, anchored, w, v, k)
      {
        assert u[k..] + ([c] + v) == w[k..] + v;
      }
      assert w[|w|..] + v == v;
      assert SomeStart(g, root, anchored, w, v) <==>
             SomeStart(g, root, anchored, u, [c] + v) || (!anchored && Accepts(g, root, v)) by {
        if SomeStart(g, root, anchored, w, v) {
          var k :| StartsAt(g, root, anchored, w, v, k);
        }
        if SomeStart(g, root, anchored, u, [c] + v) {
          var k :| StartsAt(g, root, anchored, u, [c] + v, k);
          assert StartsAt(g, root, anchored, w, v, k);
        }
        if !anchored && Accepts(g, root, v) {
          assert StartsAt(g, root, anchored, w, v, |w|);
        }
      }
    }
  }

  /** Reading `c` completes a match exactly when some start position spells a word that ends with `c`. */
  ghost predicate Hits(g: Graph, s: set<int>, c: CodePoint)
    requires Simulable(g) && States(g, s)
  {
    exists m :: m in Moved(g, s, c) && 0 <= m < |g.states| && g.states[m].out == INVALID
  }

  lemma HitsMeaning(g: Graph, root: int, anchored: bool, w: Word, c: CodePoint)
    requires Simulable(g) && 0 <= root < |g.states|
    ensures Hits(g, Active(g, root, anchored, w), c) <==>
            exists k :: 0 <= k <= |w| && (anchored ==> k == 0) && Accepts(g, root, (w + [c])[k..])
  {
    var s := Active(g, root, anchored, w);
    NextStates(g, s, c, root, anchored);
    forall m | m in Moved(g, s, c) ensures g.states[m].out == INVALID <==> Accepts(g, m, []) {
      LeafAccepts(g, m, []);
    }
    MovedAccepts(g, s, c, []);
    assert [c] + [] == [c];
    ActiveMeaning(g, root, anchored, w, [c]);
    assert Hits(g, s, c) <==> SomeStart(g, root, anchored, w, [c]);
    forall k | 0 <= k <= |w| ensures w[k..] + [c] == (w + [c])[k..] {
    }
    if SomeStart(g, root, anchored, w, [c]) {
      var k :| StartsAt(g, root, anchored, w, [c], k);
      assert Accepts(g, root, (w + [c])[k..]);
    }
    if k :| 0 <= k <= |w| && (anchored ==> k == 0) && Accepts(g, root, (w + [c])[k..]) {
      assert StartsAt(g, root, anchored, w, [c], k);
    }
  }
}
