/** Create and Get of pointer.h: resolving a pointer in a document, with or without making what is missing. */
module PointerAccess {
  import opened Options
  import opened JsonEvents
  import opened JsonGrammar
  import opened JsonPointers
  import opened Texts

  const DASH: Text := ['-' as nat]

  /** A place in a document: the positions of the children on the way down. */
  type Path = seq<nat>

  const NULL: Json := Leaf(Null)

  // ----- Places -----

  function ChildCount(v: Json): nat {
    match v
    case Leaf(_) => 0
    case Array(es) => |es|
    case Object(ms) => |ms|
  }

  function Child(v: Json, k: nat): Json
    requires k < ChildCount(v)
  {
    if v.Array? then v.elements[k] else v.members[k].value
  }

  function WithChild(v: Json, k: nat, c: Json): (w: Json)
    requires k < ChildCount(v)
    ensures ChildCount(w) == ChildCount(v) && Child(w, k) == c
    ensures forall j :: 0 <= j < ChildCount(v) && j != k ==> Child(w, j) == Child(v, j)
  {
    if v.Array? then Array(v.elements[k := c]) else Object(v.members[k := Member(v.members[k].name, c)])
  }

  predicate Exists(v: Json, path: Path)
    decreases |path|
  {
    path == [] || (path[0] < ChildCount(v) && Exists(Child(v, path[0]), path[1..]))
  }

  function Node(v: Json, path: Path): Json
    requires Exists(v, path)
    decreases |path|
  {
    if path == [] then v else Node(Child(v, path[0]), path[1..])
  }

  function Replace(v: Json, path: Path, w: Json): Json
    requires Exists(v, path)
    decreases |path|
  {
    if path == [] then w else WithChild(v, path[0], Replace(Child(v, path[0]), path[1..], w))
  }

  // ----- Get -----

  /** Position of the first member of that name, or their number. */
  function FindMember(ms: seq<Member>, name: Text): (k: nat)
    ensures k <= |ms| && (k < |ms| ==> ms[k].name == name)
    ensures forall j :: 0 <= j < k ==> ms[j].name != name
    decreases |ms|
  {
    if ms == [] || ms[0].name == name then 0 else 1 + FindMember(ms[1..], name)
  }

  /** The child a token names, if there is one. */
  function Lookup(v: Json, t: Token): (k: Option<nat>)
    ensures k.Some? ==> k.value < ChildCount(v)
  {
    match v
    case Leaf(_) => None
    case Object(ms) => if FindMember(ms, t.name) == |ms| then None else Some(FindMember(ms, t.name))
    case Array(es) => if t.index == INVALID_INDEX || t.index >= |es| then None else Some(t.index)
  }

  /** Where the tokens lead, or how many of them can be followed. */
  datatype Resolved = Found(path: Path) | Unresolved(index: nat)

  function Resolve(v: Json, tokens: seq<Token>): (r: Resolved)
    ensures r.Found? ==> |r.path| == |tokens| && Exists(v, r.path)
    ensures r.Unresolved? ==> r.index < |tokens|
    decreases |tokens|
  {
    if tokens == [] then Found([])
    else
      match Lookup(v, tokens[0])
      case None => Unresolved(0)
      case Some(k) =>
        match Resolve(Child(v, k), tokens[1..])
        case Found(p) => Found([k] + p)
        case Unresolved(n) => Unresolved(n + 1)
  }

  /** The result of a lookup that goes on from where the path leads. */
  function Behind(path: Path, r: Resolved): Resolved {
    match r
    case Found(p) => Found(path + p)
    case Unresolved(n) => Unresolved(|path| + n)
  }

  lemma AllBefore(r: Resolved)
    ensures Behind([], r) == r
  {
    if r.Found? {
      assert [] + r.path == r.path;
    }
  }

  lemma NoneLeft(v: Json, tokens: seq<Token>, path: Path)
    ensures Behind(path, Resolve(v, tokens[|tokens|..])) == Found(path)
  {
    assert tokens[|tokens|..] == [] && path + [] == path;
  }

  lemma ResolveNext(v: Json, tokens: seq<Token>, t: nat, path: Path)
    requires t < |tokens|
    ensures var k, r := Lookup(v, tokens[t]), Behind(path, Resolve(v, tokens[t..]));
            r == if k.None? then Unresolved(|path|) else Behind(path + [k.value], Resolve(Child(v, k.value), tokens[t + 1..]))
  {
    assert tokens[t..][0] == tokens[t] && tokens[t..][1..] == tokens[t + 1..];
    var k := Lookup(v, tokens[t]);
    if k.Some? {
      var rest := Resolve(Child(v, k.value), tokens[t + 1..]);
      if rest.Found? {
        assert path + ([k.value] + rest.path) == path + [k.value] + rest.path;
      }
    }
  }

  // ----- Create -----

  function Nulls(n: nat): seq<Json> {
    seq(n, _ => NULL)
  }

  predicate AppendsTo(v: Json, t: Token) {
    v.Array? && t.name == DASH
  }

  /** The container a token needs: an object for a name, an array or an object for an index. */
  function AsContainer(v: Json, t: Token): Json {
    if t.index == INVALID_INDEX then if v.Object? then v else Object([])
    else if v.Leaf? then Array([]) else v
  }

  datatype Stepped = Stepped(value: Json, position: nat, existed: bool)

  /** The value with the child the token names, made where it is missing, and that child's position. */
  function StepInto(v: Json, t: Token): (s: Stepped)
    ensures s.position < ChildCount(s.value)
  {
    if AppendsTo(v, t) then Stepped(Array(v.elements + [NULL]), |v.elements|, false)
    else
      var w := AsContainer(v, t);
      if w.Array? then
        if t.index >= |w.elements| then Stepped(Array(w.elements + Nulls(t.index + 1 - |w.elements|)), t.index, false)
        else Stepped(w, t.index, true)
      else
        var k := FindMember(w.members, t.name);
        if k == |w.members| then Stepped(Object(w.members + [Member(t.name, NULL)]), |w.members|, false)
        else Stepped(w, k, true)
  }

  datatype Created = Created(value: Json, path: Path, existed: bool)

  function CreateAt(v: Json, tokens: seq<Token>): (c: Created)
    ensures |c.path| == |tokens| && Exists(c.value, c.path)
    decreases |tokens|
  {
    if tokens == [] then Created(v, [], true)
    else
      var s := StepInto(v, tokens[0]);
      var c := CreateAt(Child(s.value, s.position), tokens[1..]);
      Created(WithChild(s.value, s.position, c.value), [s.position] + c.path, s.existed && c.existed)
  }

  // ----- Get after Create -----

  /** No token '-' meets an array on the way. */
  predicate DashFree(v: Json, tokens: seq<Token>)
    decreases |tokens|
  {
    tokens == [] ||
    (!AppendsTo(v, tokens[0]) &&
     var s := StepInto(v, tokens[0]);
     DashFree(Child(s.value, s.position), tokens[1..]))
  }

  /** As parsed: each index is the one of its name. */
  predicate Canonical(tokens: seq<Token>) {
    forall k :: 0 <= k < |tokens| ==> tokens[k].index == IndexOf(tokens[k].name)
  }

  /** Tokens may also be supplied ready-made; a '-' is no index in these either. */
  predicate DashesPlain(tokens: seq<Token>) {
    forall k :: 0 <= k < |tokens| ==> DashPlain(tokens[k])
  }

  predicate DashPlain(t: Token) {
    t.name == DASH ==> t.index == INVALID_INDEX
  }

  /** Where a step leads is where a lookup then leads, unless it appended. */
  lemma LookupStep(v: Json, t: Token, c: Json)
    requires DashPlain(t)
    ensures var s := StepInto(v, t);
            var w := WithChild(s.value, s.position, c);
            && (!AppendsTo(v, t) ==> Lookup(w, t) == Some(s.position) && StepInto(w, t) == Stepped(w, s.position, true))
            && (!AppendsTo(v, t) ==> (s.existed <==> Lookup(v, t).Some?))
            && (s.existed ==> s.value == v && Lookup(v, t) == Some(s.position))
            && (!s.existed ==> Child(s.value, s.position) == NULL)
  {
    var s := StepInto(v, t);
    if !AppendsTo(v, t) && s.value.Object? {
      FoundAgain(s.value.members, t.name, s.position, c);
    }
  }

  lemma {:induction false} FindIs(ms: seq<Member>, name: Text, k: nat)
    requires k <= |ms| && (k < |ms| ==> ms[k].name == name) && forall j :: 0 <= j < k ==> ms[j].name != name
    ensures FindMember(ms, name) == k
  {
    var f := FindMember(ms, name);
    assert f < |ms| ==> ms[f].name == name;
    assert k < |ms| ==> ms[k].name == name;
  }

  lemma FoundAgain(ms: seq<Member>, name: Text, k: nat, c: Json)
    requires k < |ms| && ms[k].name == name && forall j :: 0 <= j < k ==> ms[j].name != name
    ensures FindMember(ms, name) == k && FindMember(ms[k := Member(name, c)], name) == k
  {
    FindIs(ms, name, k);
    FindIs(ms[k := Member(name, c)], name, k);
  }

  /**
   * After Create, Get resolves to the very node it made or met, a second Create changes nothing and reports
   * that the value was there: exactly when no '-' met an array.
   */
  lemma {:induction false} CreateThenGet(v: Json, tokens: seq<Token>)
    requires DashesPlain(tokens)
    ensures var c := CreateAt(v, tokens);
            && (DashFree(v, tokens) ==> Resolve(c.value, tokens) == Found(c.path) && CreateAt(c.value, tokens) == Created(c.value, c.path, true))
            && (!DashFree(v, tokens) ==> Resolve(c.value, tokens).Unresolved?)
    decreases |tokens|
  {
    if tokens != [] {
      var t, rest := tokens[0], tokens[1..];
      var s := StepInto(v, t);
      var c := CreateAt(Child(s.value, s.position), rest);
      CreateThenGet(Child(s.value, s.position), rest);
      LookupStep(v, t, c.value);
      var w := WithChild(s.value, s.position, c.value);
      if DashFree(v, tokens) {
        SameChild(w, s.position);
      }
    }
  }

  lemma SameChild(v: Json, k: nat)
    requires k < ChildCount(v)
    ensures WithChild(v, k, Child(v, k)) == v
  {
    if v.Array? {
      assert v.elements[k := v.elements[k]] == v.elements;
    } else {
      assert v.members[k := Member(v.members[k].name, v.members[k].value)] == v.members;
    }
  }

  /** Create reports that a value was there exactly when Get finds it; then nothing changes, else the new value is null. */
  lemma {:induction false} CreateReports(v: Json, tokens: seq<Token>)
    requires DashesPlain(tokens)
    ensures var c := CreateAt(v, tokens);
            && (c.existed <==> Resolve(v, tokens).Found?)
            && (c.existed ==> c.value == v && Resolve(v, tokens) == Found(c.path))
            && (!c.existed ==> Node(c.value, c.path) == NULL)
    decreases |tokens|
  {
    if tokens != [] {
      var t, rest := tokens[0], tokens[1..];
      var s := StepInto(v, t);
      var child := Child(s.value, s.position);
      var c := CreateAt(child, rest);
      CreateReports(child, rest);
      LookupStep(v, t, c.value);
      if s.existed {
        SameChild(v, s.position);
      } else {
        NullCreates(rest);
      }
    }
  }

  /** Below a null that was just made, everything is made. */
  lemma {:induction false} NullCreates(tokens: seq<Token>)
    requires DashesPlain(tokens)
    ensures var c := CreateAt(NULL, tokens); Node(c.value, c.path) == NULL
    decreases |tokens|
  {
    if tokens != [] {
      LookupStep(NULL, tokens[0], CreateAt(NULL, tokens[1..]).value);
      NullCreates(tokens[1..]);
    }
  }

  // ----- What Create leaves alone -----

  /** A name met an array: all its elements go. */
  predicate Empties(v: Json, t: Token) {
    v.Array? && !AppendsTo(v, t) && t.index == INVALID_INDEX
  }

  /** The place `p` lies below an array that Create turns into an object. */
  predicate Loses(v: Json, tokens: seq<Token>, p: Path)
    decreases |tokens|
  {
    tokens != [] && p != [] &&
    (Empties(v, tokens[0]) ||
     var s := StepInto(v, tokens[0]);
     p[0] == s.position && Loses(Child(s.value, s.position), tokens[1..], p[1..]))
  }

  lemma LookupKept(v: Json, t: Token, c: Json, q: Token)
    requires Lookup(v, q).Some? && !Empties(v, t)
    ensures var s := StepInto(v, t);
            var w := WithChild(s.value, s.position, c);
            var k := Lookup(v, q).value;
            && Lookup(w, q) == Some(k) && k < ChildCount(s.value) && Child(s.value, k) == Child(v, k)
            && (k != s.position ==> Child(w, k) == Child(v, k)) && (k == s.position ==> s.existed)
  {
    var s := StepInto(v, t);
    var w := WithChild(s.value, s.position, c);
    if v.Object? {
      FindIs(w.members, q.name, Lookup(v, q).value);
    }
  }

  lemma LookupLost(v: Json, t: Token, c: Json, q: Token)
    requires Lookup(v, q).Some? && Empties(v, t)
    requires t.index == IndexOf(t.name) && q.index == IndexOf(q.name)
    ensures var s := StepInto(v, t); Lookup(WithChild(s.value, s.position, c), q).None?
  {
    var s := StepInto(v, t);
    FindIs(WithChild(s.value, s.position, c).members, q.name, 1);
  }

  /**
   * Every place a pointer resolved to before Create, it resolves to afterwards, with the same value unless it lies
   * on the path to the created one; then only what lies further along the path differs.
   * The exception is a place below an array that had to become an object: parsed pointers to it no longer resolve.
   */
  lemma {:induction false} OffPathKept(v: Json, tokens: seq<Token>, q: seq<Token>)
    requires Resolve(v, q).Found?
    ensures var c, p := CreateAt(v, tokens), Resolve(v, q).path;
            && (!Loses(v, tokens, p) ==>
                  && Resolve(c.value, q) == Found(p)
                  && Node(c.value, p) == if p <= c.path then CreateAt(Node(v, p), tokens[|p|..]).value else Node(v, p))
            && (Loses(v, tokens, p) && Canonical(tokens) && Canonical(q) ==> Resolve(c.value, q).Unresolved?)
    decreases |tokens|
  {
    hide StepInto, Lookup;
    var p := Resolve(v, q).path;
    if tokens == [] {
      PrefixOfNothing(p);
    } else if p == [] {
      assert tokens[0..] == tokens;
    } else {
      var t, rest := tokens[0], tokens[1..];
      var s := StepInto(v, t);
      var child := Child(s.value, s.position);
      var c := CreateAt(child, rest);
      var w := WithChild(s.value, s.position, c.value);
      PathPrefix(p, [s.position] + c.path);
      if Empties(v, t) {
        if Canonical(tokens) && Canonical(q) {
          LookupLost(v, t, c.value, q[0]);
        }
      } else {
        LookupKept(v, t, c.value, q[0]);
        if p[0] == s.position {
          OffPathKept(child, rest, q[1..]);
          if |p| <= |tokens| {
            assert tokens[1..][|p[1..]|..] == tokens[|p|..];
          }
        }
      }
    }
  }

  lemma PrefixOfNothing(p: Path)
    ensures p <= [] <==> p == []
  {
  }

  lemma PathPrefix(p: Path, r: Path)
    requires p != [] && r != []
    ensures p <= r <==> p[0] == r[0] && p[1..] <= r[1..]
  {
    if p[0] == r[0] && p[1..] <= r[1..] {
      assert p == [p[0]] + p[1..] && r == [r[0]] + r[1..];
    }
  }

  // ----- The containers Create makes -----

  /** What stood at a place before, where the containers above it have kept their kind; else null. */
  function OldNode(v: Json, w: Json, path: Path): Json
    requires Exists(w, path)
    decreases |path|
  {
    if path == [] then v
    else if ((v.Array? && w.Array?) || (v.Object? && w.Object?)) && path[0] < ChildCount(v) then
      OldNode(Child(v, path[0]), Child(w, path[0]), path[1..])
    else Leaf(Null)
  }

  /** An array where there was one and the token can address it, or where there was a scalar and the token has an index. */
  predicate ArrayFor(before: Json, t: Token) {
    (before.Array? && (t.name == ['-' as nat] || t.index != INVALID_INDEX)) || (before.Leaf? && t.index != INVALID_INDEX)
  }

  /** The array is as long as before or long enough for the token, and new elements are null. */
  predicate ArrayMade(es: seq<Json>, after: Json, t: Token, append: bool, k: nat) {
    && after.Array? && k == (if append then |es| else t.index)
    && |after.elements| == (if k < |es| then |es| else k + 1)
    && forall j :: 0 <= j < |after.elements| && j != k ==> after.elements[j] == if j < |es| then es[j] else Leaf(Null)
  }

  /** The object has the members it had, and the one of the token's name. */
  predicate ObjectMade(ms: seq<Member>, after: Json, t: Token, k: nat) {
    && after.Object? && k <= |ms| && |after.members| == (if k < |ms| then |ms| else |ms| + 1)
    && after.members[k].name == t.name && (forall j :: 0 <= j < k ==> after.members[j].name != t.name)
    && forall j :: 0 <= j < |ms| && j != k ==> after.members[j] == ms[j]
  }

  predicate ContainerMade(before: Json, after: Json, t: Token, k: nat) {
    if ArrayFor(before, t) then ArrayMade(if before.Array? then before.elements else [], after, t, before.Array? && t.name == ['-' as nat], k)
    else ObjectMade(if before.Object? then before.members else [], after, t, k)
  }

  lemma StepMakes(v: Json, t: Token, c: Json)
    ensures var s := StepInto(v, t); ContainerMade(v, WithChild(s.value, s.position, c), t, s.position)
    ensures var s := StepInto(v, t); var w := WithChild(s.value, s.position, c);
            Child(s.value, s.position) ==
            if ((v.Array? && w.Array?) || (v.Object? && w.Object?)) && s.position < ChildCount(v) then Child(v, s.position) else Leaf(Null)
  {
  }

  lemma CreateNext(v: Json, tokens: seq<Token>)
    requires tokens != []
    ensures var s := StepInto(v, tokens[0]);
            var d := CreateAt(Child(s.value, s.position), tokens[1..]);
            CreateAt(v, tokens) == Created(WithChild(s.value, s.position, d.value), [s.position] + d.path, s.existed && d.existed)
  {
    hide StepInto;
  }

  /** Whatever the document was, each token meets the container it needs, made or enlarged no more than it must be. */
  lemma {:induction false} CreateMakes(v: Json, tokens: seq<Token>, k: nat)
    requires k < |tokens|
    ensures var c := CreateAt(v, tokens);
            && Exists(c.value, c.path[..k])
            && ContainerMade(OldNode(v, c.value, c.path[..k]), Node(c.value, c.path[..k]), tokens[k], c.path[k])
    decreases k
  {
    hide StepInto, ContainerMade, CreateAt;
    var s, c := StepInto(v, tokens[0]), CreateAt(v, tokens);
    var child, rest := Child(s.value, s.position), tokens[1..];
    var d := CreateAt(child, rest);
    CreateNext(v, tokens);
    StepMakes(v, tokens[0], d.value);
    if k == 0 {
      assert c.path[..0] == [];
    } else {
      CreateMakes(child, rest, k - 1);
      assert c.path[..k] == [s.position] + d.path[..k - 1];
      OneDown(v, c.value, s.position, d.path[..k - 1]);
      OfNull(d.value, d.path[..k - 1]);
    }
  }

  lemma OneDown(v: Json, w: Json, k: nat, path: Path)
    requires k < ChildCount(w) && Exists(Child(w, k), path)
    ensures Exists(w, [k] + path) && Node(w, [k] + path) == Node(Child(w, k), path)
    ensures OldNode(v, w, [k] + path) ==
            if ((v.Array? && w.Array?) || (v.Object? && w.Object?)) && k < ChildCount(v) then OldNode(Child(v, k), Child(w, k), path)
            else Leaf(Null)
  {
    assert ([k] + path)[1..] == path;
  }

  /** Below a place that was null, everything was null. */
  lemma OfNull(w: Json, path: Path)
    requires Exists(w, path)
    ensures OldNode(Leaf(Null), w, path) == Leaf(Null)
  {
  }

  /** The node at the end of the path is the one that was there, or null. */
  lemma {:induction false} CreateLeaves(v: Json, tokens: seq<Token>)
    ensures var c := CreateAt(v, tokens); Node(c.value, c.path) == OldNode(v, c.value, c.path)
    decreases |tokens|
  {
    if tokens != [] {
      hide StepInto, CreateAt, ContainerMade;
      var s, c := StepInto(v, tokens[0]), CreateAt(v, tokens);
      var child, rest := Child(s.value, s.position), tokens[1..];
      var d := CreateAt(child, rest);
      CreateNext(v, tokens);
      StepMakes(v, tokens[0], d.value);
      CreateLeaves(child, rest);
      OneDown(v, c.value, s.position, d.path);
      OfNull(d.value, d.path);
    }
  }

  // ----- The loops -----

  lemma {:induction false} NodeReplaced(v: Json, path: Path, w: Json, k: nat, c: Json)
    requires Exists(v, path) && k < ChildCount(w)
    ensures Exists(Replace(v, path, w), path) && Node(Replace(v, path, w), path) == w
    ensures Exists(Replace(v, path, w), path + [k]) && Node(Replace(v, path, w), path + [k]) == Child(w, k)
    ensures Replace(Replace(v, path, w), path + [k], c) == Replace(v, path, WithChild(w, k, c))
    decreases |path|
  {
    if path == [] {
      assert [k][1..] == [];
    } else {
      var inner := Replace(Child(v, path[0]), path[1..], w);
      NodeReplaced(Child(v, path[0]), path[1..], w, k, c);
      assert (path + [k])[1..] == path[1..] + [k];
      ReplaceTwice(v, path[0], inner, Replace(inner, path[1..] + [k], c));
    }
  }

  lemma ReplaceTwice(v: Json, k: nat, a: Json, b: Json)
    requires k < ChildCount(v)
    ensures WithChild(WithChild(v, k, a), k, b) == WithChild(v, k, b)
  {
  }

  class PointerDocument {
    var root: Json

    constructor (root: Json)
      ensures this.root == root
    {
      this.root := root;
    }

    /** Walks down from the root, a token at a time. */
    method Get(tokens: seq<Token>) returns (r: Resolved)
      ensures r == Resolve(root, tokens)
    {
      hide Resolve, Behind;
      var v := root;
      var path: Path := [];
      AllBefore(Resolve(root, tokens));
      assert tokens[0..] == tokens;
      for t := 0 to |tokens|
        invariant |path| == t
        invariant Resolve(root, tokens) == Behind(path, Resolve(v, tokens[t..]))
      {
        var token := tokens[t];
        ResolveNext(v, tokens, t, path);
        match v {
          case Object(ms) =>
            var m := Find(ms, token.name);
            if m == |ms| {
              return Unresolved(t);
            }
            v := ms[m].value;
            path := path + [m];
          case Array(es) =>
            if token.index == INVALID_INDEX || token.index >= |es| {
              return Unresolved(t);
            }
            v := es[token.index];
            path := path + [token.index];
          case Leaf(_) =>
            return Unresolved(t);
        }
      }
      NoneLeft(v, tokens, path);
      r := Found(path);
    }

    method Find(ms: seq<Member>, name: Text) returns (k: nat)
      ensures k == FindMember(ms, name)
    {
      k := 0;
      while k < |ms| && ms[k].name != name
        invariant k <= |ms| && FindMember(ms, name) == k + FindMember(ms[k..], name)
      {
        assert ms[k..][1..] == ms[k + 1..];
        k := k + 1;
      }
    }

    /** The node the walk stands at becomes `w`, inside the root. */
    method Put(path: Path, w: Json)
      requires Exists(root, path)
      modifies this
      ensures root == Replace(old(root), path, w)
    {
      root := Replace(root, path, w);
    }

    /** One token: the container, the missing elements or member, and one step down. */
    method Step(path: Path, t: Token) returns (position: nat, existed: bool)
      requires Exists(root, path)
      modifies this
      ensures var s := StepInto(Node(old(root), path), t);
              root == Replace(old(root), path, s.value) && position == s.position && existed == s.existed
    {
      hide Replace, Node, Exists;
      var v := Node(root, path);
      existed := true;
      if v.Array? && t.name == DASH {
        v := Array(v.elements + [NULL]);
        position := |v.elements| - 1;
        existed := false;
      } else {
        if t.index == INVALID_INDEX {
          if !v.Object? {
            v := Object([]);
          }
        } else if !v.Array? && !v.Object? {
          v := Array([]);
        }
        if v.Array? {
          if t.index >= |v.elements| {
            var es := v.elements;
            ghost var n := |es|;
            while t.index >= |es|
              invariant n <= |es| <= t.index + 1 && es == v.elements + Nulls(|es| - n)
              decreases t.index + 1 - |es|
            {
              es := es + [NULL];
            }
            v := Array(es);
            existed := false;
          }
          position := t.index;
        } else {
          position := Find(v.members, t.name);
          if position == |v.members| {
            v := Object(v.members + [Member(t.name, NULL)]);
            existed := false;
          }
        }
      }
      Put(path, v);
    }

    method Create(tokens: seq<Token>) returns (path: Path, alreadyExist: bool)
      modifies this
      ensures var c := CreateAt(old(root), tokens); root == c.value && path == c.path && alreadyExist == c.existed
    {
      hide StepInto, Replace, Node, Exists;
      path, alreadyExist := [], true;
      WholeIsHere(root, CreateAt(root, tokens).value);
      for t := 0 to |tokens|
        invariant Exists(root, path)
        invariant var c, d := CreateAt(old(root), tokens), CreateAt(Node(root, path), tokens[t..]);
                  && c.value == Replace(root, path, d.value) && c.path == path + d.path
                  && c.existed == (alreadyExist && d.existed)
      {
        ghost var before, v := root, Node(root, path);
        assert tokens[t..][0] == tokens[t] && tokens[t..][1..] == tokens[t + 1..];
        ghost var s := StepInto(v, tokens[t]);
        ghost var d := CreateAt(Child(s.value, s.position), tokens[t + 1..]);
        NodeReplaced(before, path, s.value, s.position, d.value);
        var position, existed := Step(path, tokens[t]);
        assert path + ([position] + d.path) == path + [position] + d.path;
        path := path + [position];
        alreadyExist := alreadyExist && existed;
      }
      assert tokens[|tokens|..] == [] && path + [] == path;
      NodeBack(root, path);
    }
  }

  lemma WholeIsHere(v: Json, w: Json)
    ensures Exists(v, []) && Node(v, []) == v && Replace(v, [], w) == w
  {
  }

  lemma {:induction false} NodeBack(v: Json, path: Path)
    requires Exists(v, path)
    ensures Replace(v, path, Node(v, path)) == v
    decreases |path|
  {
    if path != [] {
      NodeBack(Child(v, path[0]), path[1..]);
      SameChild(v, path[0]);
    }
  }
}
