/** The document builder of document.h: events build values on a stack. */
module JsonDocuments {
  import opened Options
  import opened JsonEvents
  import opened JsonGrammar

  /** Names and values of `2 * n` entries, where every name is a string. */
  function MembersOf(entries: seq<Json>): Option<seq<Member>>
    requires |entries| % 2 == 0
  {
    if entries == [] then Some([])
    else
      match MembersOf(entries[..|entries| - 2])
      case None => None
      case Some(ms) =>
        var name := entries[|entries| - 2];
        if name.Leaf? && name.v.String? then Some(ms + [Member(name.v.s, entries[|entries| - 1])]) else None
  }

  /** One event: scalars and keys are pushed, an end event replaces the children and the container below them. */
  function Handled(stack: seq<Json>, e: Event): Option<seq<Json>> {
    match e
    case StartObject => Some(stack + [Object([])])
    case StartArray => Some(stack + [Array([])])
    case Key(s) => Some(stack + [Leaf(String(s))])
    case Value(s) => Some(stack + [Leaf(s)])
    case EndObject(n) =>
      if |stack| < 2 * n + 1 then None
      else
        var base := |stack| - 2 * n;
        match MembersOf(stack[base..]) {
          case None => None
          case Some(ms) => Some(stack[..base - 1] + [Object(ms)])
        }
    case EndArray(n) =>
      if |stack| < n + 1 then None else Some(stack[..|stack| - n - 1] + [Array(stack[|stack| - n..])])
  }

  function Replayed(stack: seq<Json>, events: seq<Event>): Option<seq<Json>>
    decreases |events|
  {
    if events == [] then Some(stack)
    else
      match Handled(stack, events[0])
      case None => None
      case Some(next) => Replayed(next, events[1..])
  }

  lemma {:induction false} ReplayConcat(stack: seq<Json>, a: seq<Event>, b: seq<Event>)
    requires Replayed(stack, a).Some?
    ensures Replayed(stack, a + b) == Replayed(Replayed(stack, a).value, b)
    decreases |a|
  {
    if a == [] {
      assert a + b == b;
    } else {
      assert (a + b)[0] == a[0] && (a + b)[1..] == a[1..] + b;
      ReplayConcat(Handled(stack, a[0]).value, a[1..], b);
    }
  }

  lemma ReplayOne(stack: seq<Json>, e: Event)
    ensures Replayed(stack, [e]) == Handled(stack, e)
  {
    assert [e][1..] == [];
    match Handled(stack, e)
    case None =>
    case Some(next) => assert Replayed(next, []) == Some(next);
  }

  /** What a list of members leaves on the stack: names and values in turn. */
  function Entries(ms: seq<Member>): seq<Json> {
    if ms == [] then [] else [Leaf(String(ms[0].name)), ms[0].value] + Entries(ms[1..])
  }

  lemma {:induction false} EntriesConcat(a: seq<Member>, b: seq<Member>)
    ensures Entries(a + b) == Entries(a) + Entries(b)
    decreases |a|
  {
    if a == [] {
      assert a + b == b;
    } else {
      assert (a + b)[1..] == a[1..] + b;
      EntriesConcat(a[1..], b);
    }
  }

  lemma {:induction false} EntriesAreMembers(ms: seq<Member>)
    ensures |Entries(ms)| == 2 * |ms| && MembersOf(Entries(ms)) == Some(ms)
    decreases |ms|
  {
    if ms != [] {
      var front, last := ms[..|ms| - 1], ms[|ms| - 1];
      EntriesAreMembers(front);
      EntriesConcat(front, [last]);
      assert front + [last] == ms;
      assert Entries([last]) == [Leaf(String(last.name)), last.value];
      assert Entries(ms)[..|Entries(ms)| - 2] == Entries(front);
    }
  }

  lemma EndArrayBuilds(stack: seq<Json>, es: seq<Json>)
    ensures Handled(stack + [Array([])] + es, EndArray(|es|)) == Some(stack + [Array(es)])
  {
    var open := stack + [Array([])];
    assert (open + es)[|open|..] == es && (open + es)[..|open| - 1] == stack;
  }

  lemma EndObjectBuilds(stack: seq<Json>, ms: seq<Member>)
    ensures Handled(stack + [Object([])] + Entries(ms), EndObject(|ms|)) == Some(stack + [Object(ms)])
  {
    hide MembersOf, Entries;
    var open := stack + [Object([])];
    EntriesAreMembers(ms);
    assert (open + Entries(ms))[|open|..] == Entries(ms) && (open + Entries(ms))[..|open| - 1] == stack;
  }

  lemma Starts(stack: seq<Json>)
    ensures Replayed(stack, [StartArray]) == Some(stack + [Array([])])
    ensures Replayed(stack, [StartObject]) == Some(stack + [Object([])])
  {
    ReplayOne(stack, StartArray);
    ReplayOne(stack, StartObject);
  }

  /** Replaying the events of a value leaves exactly that value on top of what was there. */
  lemma {:induction false} ReplayBuilds(stack: seq<Json>, v: Json)
    ensures Replayed(stack, EventsOf(v)) == Some(stack + [v])
    decreases v, 0
  {
    Starts(stack);
    match v
    case Leaf(s) => ReplayOne(stack, Value(s));
    case Array(es) =>
      hide Replayed, Handled, ElementEvents;
      var open := stack + [Array([])];
      ReplayElements(open, es);
      EndArrayBuilds(stack, es);
      ReplayOne(open + es, EndArray(|es|));
      ReplayConcat(open, ElementEvents(es), [EndArray(|es|)]);
      ReplayConcat(stack, [StartArray], ElementEvents(es) + [EndArray(|es|)]);
      assert EventsOf(v) == [StartArray] + (ElementEvents(es) + [EndArray(|es|)]);
    case Object(ms) =>
      hide Replayed, Handled, MemberEvents, Entries;
      var open := stack + [Object([])];
      ReplayMembers(open, ms);
      EndObjectBuilds(stack, ms);
      ReplayOne(open + Entries(ms), EndObject(|ms|));
      ReplayConcat(open, MemberEvents(ms), [EndObject(|ms|)]);
      ReplayConcat(stack, [StartObject], MemberEvents(ms) + [EndObject(|ms|)]);
      assert EventsOf(v) == [StartObject] + (MemberEvents(ms) + [EndObject(|ms|)]);
  }

  lemma {:induction false} ReplayElements(stack: seq<Json>, es: seq<Json>)
    ensures Replayed(stack, ElementEvents(es)) == Some(stack + es)
    decreases es, 1
  {
    if es == [] {
      assert stack + es == stack;
    } else {
      ReplayBuilds(stack, es[0]);
      ReplayElements(stack + [es[0]], es[1..]);
      ReplayConcat(stack, EventsOf(es[0]), ElementEvents(es[1..]));
      assert stack + [es[0]] + es[1..] == stack + es;
    }
  }

  lemma {:induction false} ReplayMembers(stack: seq<Json>, ms: seq<Member>)
    ensures Replayed(stack, MemberEvents(ms)) == Some(stack + Entries(ms))
    decreases ms, 1
  {
    if ms == [] {
      assert stack + Entries(ms) == stack;
    } else {
      var m := ms[0];
      var named := stack + [Leaf(String(m.name))];
      ReplayOne(stack, Key(m.name));
      ReplayBuilds(named, m.value);
      ReplayConcat(stack, [Key(m.name)], EventsOf(m.value));
      ReplayMembers(named + [m.value], ms[1..]);
      ReplayConcat(stack, [Key(m.name)] + EventsOf(m.value), MemberEvents(ms[1..]));
      assert named + [m.value] + Entries(ms[1..]) == stack + Entries(ms);
    }
  }

  // ----- In the middle of a value -----

  /** An open container with its finished children, and for an object perhaps the name of the next one. */
  datatype Open = OpenArray(elements: seq<Json>) | OpenObject(members: seq<Member>) | OpenMember(members: seq<Member>, name: Text)

  function OpenEvents(o: Open): seq<Event> {
    match o
    case OpenArray(es) => [StartArray] + ElementEvents(es)
    case OpenObject(ms) => [StartObject] + MemberEvents(ms)
    case OpenMember(ms, name) => [StartObject] + (MemberEvents(ms) + [Key(name)])
  }

  /** An open container followed by exactly its finished children. */
  function OpenEntries(o: Open): seq<Json> {
    match o
    case OpenArray(es) => [Array([])] + es
    case OpenObject(ms) => [Object([])] + Entries(ms)
    case OpenMember(ms, name) => [Object([])] + (Entries(ms) + [Leaf(String(name))])
  }

  /** The events so far when these containers are open, outermost first, and the stack they leave. */
  function SoFar(path: seq<Open>): seq<Event> {
    if path == [] then [] else SoFar(path[..|path| - 1]) + OpenEvents(path[|path| - 1])
  }

  function Laid(path: seq<Open>): seq<Json> {
    if path == [] then [] else Laid(path[..|path| - 1]) + OpenEntries(path[|path| - 1])
  }

  lemma Push(stack: seq<Json>, a: seq<Json>, b: seq<Json>)
    ensures stack + a + b == stack + (a + b)
  {
  }

  lemma ReplayOpen(stack: seq<Json>, o: Open)
    ensures Replayed(stack, OpenEvents(o)) == Some(stack + OpenEntries(o))
  {
    hide Replayed, Handled, ElementEvents, MemberEvents, Entries;
    Starts(stack);
    match o
    case OpenArray(es) =>
      ReplayElements(stack + [Array([])], es);
      ReplayConcat(stack, [StartArray], ElementEvents(es));
      Push(stack, [Array([])], es);
    case OpenObject(ms) =>
      ReplayMembers(stack + [Object([])], ms);
      ReplayConcat(stack, [StartObject], MemberEvents(ms));
      Push(stack, [Object([])], Entries(ms));
    case OpenMember(ms, name) =>
      var open := stack + [Object([])];
      ReplayMembers(open, ms);
      KeyPushes(open + Entries(ms), name);
      ReplayConcat(open, MemberEvents(ms), [Key(name)]);
      ReplayConcat(stack, [StartObject], MemberEvents(ms) + [Key(name)]);
      Push(open, Entries(ms), [Leaf(String(name))]);
      Push(stack, [Object([])], Entries(ms) + [Leaf(String(name))]);
  }

  lemma KeyPushes(stack: seq<Json>, name: Text)
    ensures Replayed(stack, [Key(name)]) == Some(stack + [Leaf(String(name))])
  {
    ReplayOne(stack, Key(name));
  }

  /** The stack in the middle of a document: the open containers, each with its finished children behind it. */
  lemma {:induction false} StackMirrorsPath(path: seq<Open>)
    ensures Replayed([], SoFar(path)) == Some(Laid(path))
    decreases |path|
  {
    hide OpenEvents, OpenEntries;
    if path != [] {
      var outer, top := path[..|path| - 1], path[|path| - 1];
      StackMirrorsPath(outer);
      ReplayOpen(Laid(outer), top);
      ReplayConcat([], SoFar(outer), OpenEvents(top));
    }
  }

  lemma {:induction false} SoFarFrom(o: Open, inner: seq<Open>)
    ensures SoFar([o] + inner) == OpenEvents(o) + SoFar(inner)
    decreases |inner|
  {
    hide OpenEvents;
    var path := [o] + inner;
    if inner == [] {
      assert path[..0] == [];
      assert SoFar(path) == [] + OpenEvents(o);
    } else {
      assert path[..|path| - 1] == [o] + inner[..|inner| - 1];
      SoFarFrom(o, inner[..|inner| - 1]);
    }
  }

  lemma {:induction false} MemberEventsConcat(a: seq<Member>, b: seq<Member>)
    ensures MemberEvents(a + b) == MemberEvents(a) + MemberEvents(b)
    decreases |a|
  {
    if a == [] {
      assert a + b == b;
    } else {
      assert (a + b)[1..] == a[1..] + b;
      MemberEventsConcat(a[1..], b);
    }
  }

  /** Any part of an element list's events is some whole elements and perhaps a part of the next one. */
  lemma {:induction false} ElementsCut(es: seq<Json>, n: nat) returns (k: nat, inner: seq<Open>)
    requires n <= |ElementEvents(es)|
    ensures k <= |es| && ElementEvents(es)[..n] == ElementEvents(es[..k]) + SoFar(inner)
    decreases es, 1
  {
    if n == 0 {
      k, inner := 0, [];
    } else {
      var first := EventsOf(es[0]);
      if n < |first| {
        k := 0;
        inner := ValueCut(es[0], n);
        assert ElementEvents(es)[..n] == first[..n];
      } else {
        k, inner := ElementsCut(es[1..], n - |first|);
        CutBehind(es, n, k, SoFar(inner));
        k := k + 1;
      }
    }
  }

  lemma CutBehind(es: seq<Json>, n: nat, k: nat, rest: seq<Event>)
    requires es != [] && |EventsOf(es[0])| <= n <= |ElementEvents(es)| && k <= |es[1..]|
    requires n - |EventsOf(es[0])| <= |ElementEvents(es[1..])|
    requires ElementEvents(es[1..])[..n - |EventsOf(es[0])|] == ElementEvents(es[1..][..k]) + rest
    ensures ElementEvents(es)[..n] == ElementEvents(es[..k + 1]) + rest
  {
    hide EventsOf;
    var first, tail := EventsOf(es[0]), ElementEvents(es[1..]);
    assert ElementEvents(es) == first + tail;
    assert (first + tail)[..n] == first + tail[..n - |first|];
    var kept := es[..k + 1];
    assert kept[0] == es[0] && kept[1..] == es[1..][..k];
    assert ElementEvents(kept) == first + ElementEvents(es[1..][..k]);
    Regrouped(first, ElementEvents(es[1..][..k]), rest);
  }

  lemma Regrouped(a: seq<Event>, b: seq<Event>, c: seq<Event>)
    ensures a + (b + c) == (a + b) + c
  {
  }

  /** The same for members, where the part may end behind a name. */
  lemma {:induction false} MembersCut(ms: seq<Member>, n: nat) returns (o: Open, inner: seq<Open>)
    requires n <= |MemberEvents(ms)|
    ensures !o.OpenArray? && [StartObject] + MemberEvents(ms)[..n] == OpenEvents(o) + SoFar(inner)
    decreases ms, 1
  {
    if n == 0 {
      o, inner := OpenObject([]), [];
      assert [StartObject] + MemberEvents(ms)[..n] == OpenEvents(o) + SoFar(inner);
    } else {
      var m := ms[0];
      var first := [Key(m.name)] + EventsOf(m.value);
      if n < |first| {
        o := OpenMember([], m.name);
        inner := [];
        if n > 1 {
          inner := ValueCut(m.value, n - 1);
        }
        CutInside(ms, n, SoFar(inner));
      } else {
        var rest;
        rest, inner := MembersCut(ms[1..], n - |first|);
        o := if rest.OpenObject? then OpenObject([m] + rest.members) else OpenMember([m] + rest.members, rest.name);
        MembersFirst(ms, n);
        OpenedBehind(m, rest, o, MemberEvents(ms[1..])[..n - |first|], SoFar(inner));
      }
    }
  }

  /** The part ends inside the first member. */
  lemma {:induction false} CutInside(ms: seq<Member>, n: nat, inner: seq<Event>)
    requires ms != [] && 0 < n <= |EventsOf(ms[0].value)| && n <= |MemberEvents(ms)|
    requires inner == if n == 1 then [] else EventsOf(ms[0].value)[..n - 1]
    ensures [StartObject] + MemberEvents(ms)[..n] == OpenEvents(OpenMember([], ms[0].name)) + inner
  {
    hide EventsOf;
    var m := ms[0];
    var value, rest := EventsOf(m.value), MemberEvents(ms[1..]);
    assert MemberEvents(ms) == [Key(m.name)] + value + rest;
    assert ([Key(m.name)] + value + rest)[..n] == [Key(m.name)] + inner;
    assert OpenEvents(OpenMember([], m.name)) == [StartObject] + [Key(m.name)];
    Regrouped([StartObject], [Key(m.name)], inner);
  }

  lemma {:induction false} MembersFirst(ms: seq<Member>, n: nat)
    requires ms != [] && 1 + |EventsOf(ms[0].value)| <= n <= |MemberEvents(ms)|
    ensures var first := [Key(ms[0].name)] + EventsOf(ms[0].value);
            n - |first| <= |MemberEvents(ms[1..])| && MemberEvents(ms)[..n] == first + MemberEvents(ms[1..])[..n - |first|]
  {
    hide EventsOf;
    var first := [Key(ms[0].name)] + EventsOf(ms[0].value);
    assert MemberEvents(ms) == first + MemberEvents(ms[1..]);
  }

  /** One more finished member in front. */
  lemma OpenedBehind(m: Member, rest: Open, o: Open, part: seq<Event>, inner: seq<Event>)
    requires !rest.OpenArray? && [StartObject] + part == OpenEvents(rest) + inner
    requires o == if rest.OpenObject? then OpenObject([m] + rest.members) else OpenMember([m] + rest.members, rest.name)
    ensures [StartObject] + (([Key(m.name)] + EventsOf(m.value)) + part) == OpenEvents(o) + inner
  {
    var first := [Key(m.name)] + EventsOf(m.value);
    TailIs(rest);
    TailIs(o);
    TailBehind(m, rest, o);
    hide OpenEvents, MemberTail, EventsOf;
    Stripped([StartObject], part, MemberTail(rest), inner);
    Regrouped(first, MemberTail(rest), inner);
    Regrouped([StartObject], first + MemberTail(rest), inner);
  }

  function MemberTail(o: Open): seq<Event> {
    match o
    case OpenArray(_) => []
    case OpenObject(ms) => MemberEvents(ms)
    case OpenMember(ms, name) => MemberEvents(ms) + [Key(name)]
  }

  lemma TailIs(o: Open)
    requires !o.OpenArray?
    ensures OpenEvents(o) == [StartObject] + MemberTail(o)
  {
  }

  lemma TailBehind(m: Member, rest: Open, o: Open)
    requires !rest.OpenArray?
    requires o == if rest.OpenObject? then OpenObject([m] + rest.members) else OpenMember([m] + rest.members, rest.name)
    ensures MemberTail(o) == ([Key(m.name)] + EventsOf(m.value)) + MemberTail(rest)
  {
    hide EventsOf;
    MemberEventsConcat([m], rest.members);
    assert MemberEvents([m]) == [Key(m.name)] + EventsOf(m.value) + MemberEvents([m][1..]);
    assert [m][1..] == [];
  }

  lemma Stripped(a: seq<Event>, b: seq<Event>, c: seq<Event>, d: seq<Event>)
    requires a + b == (a + c) + d
    ensures b == c + d
  {
    assert (a + b)[|a|..] == b;
    assert ((a + c) + d)[|a|..] == c + d;
  }

  /** Whatever part of a value's events has been handled, some containers are open and nothing else is unfinished. */
  lemma {:induction false} ValueCut(v: Json, n: nat) returns (path: seq<Open>)
    requires 0 < n < |EventsOf(v)|
    ensures path != [] && SoFar(path) == EventsOf(v)[..n]
    decreases v, 0
  {
    hide ElementEvents, MemberEvents, SoFar, OpenEvents;
    match v
    case Array(es) =>
      FirstEvents(StartArray, ElementEvents(es), EndArray(|es|), n);
      var k, inner := ElementsCut(es, n - 1);
      path := [OpenArray(es[..k])] + inner;
      SoFarFrom(OpenArray(es[..k]), inner);
      OpenArrayEvents(es[..k]);
      Regrouped([StartArray], ElementEvents(es[..k]), SoFar(inner));
    case Object(ms) =>
      FirstEvents(StartObject, MemberEvents(ms), EndObject(|ms|), n);
      var o, inner := MembersCut(ms, n - 1);
      path := [o] + inner;
      SoFarFrom(o, inner);
  }

  lemma OpenArrayEvents(es: seq<Json>)
    ensures OpenEvents(OpenArray(es)) == [StartArray] + ElementEvents(es)
  {
  }

  lemma FirstEvents(first: Event, middle: seq<Event>, last: Event, n: nat)
    requires 0 < n < |middle| + 2
    ensures ([first] + middle + [last])[..n] == [first] + middle[..n - 1]
  {
  }

  /** After any part of a value's events the stack holds each open container followed by exactly its finished children. */
  lemma StackInTheMiddle(v: Json, n: nat) returns (path: seq<Open>)
    requires 0 < n < |EventsOf(v)|
    ensures path != [] && SoFar(path) == EventsOf(v)[..n] && Replayed([], EventsOf(v)[..n]) == Some(Laid(path))
  {
    path := ValueCut(v, n);
    StackMirrorsPath(path);
  }

  // ----- The document -----

  class GenericDocument {
    var stack: seq<Json>
    var root: Json

    constructor ()
      ensures stack == [] && root == Leaf(Null)
    {
      stack, root := [], Leaf(Null);
    }

    /** The handler methods. */
    method Handle(e: Event)
      requires Handled(stack, e).Some?
      modifies this`stack
      ensures stack == Handled(old(stack), e).value
    {
      match e
      case StartObject => stack := stack + [Object([])];
      case StartArray => stack := stack + [Array([])];
      case Key(s) => stack := stack + [Leaf(String(s))];
      case Value(s) => stack := stack + [Leaf(s)];
      case EndObject(n) =>
        var base := |stack| - 2 * n;
        var members := MembersOf(stack[base..]).value;
        stack := stack[..base];
        stack := stack[|stack| - 1 := Object(members)];
      case EndArray(n) =>
        var elements := stack[|stack| - n..];
        stack := stack[..|stack| - n];
        stack := stack[|stack| - 1 := Array(elements)];
    }

    /** Populate: the events of a generator leave one value, which becomes the document. */
    method Populate(events: seq<Event>, ghost v: Json)
      requires stack == [] && events == EventsOf(v)
      modifies this
      ensures root == v && stack == []
    {
      hide Handled, EventsOf;
      ReplayBuilds([], v);
      assert [] + [v] == [v] && events[0..] == events;
      for i := 0 to |events|
        invariant Replayed(stack, events[i..]) == Some([v])
      {
        assert events[i..][0] == events[i] && events[i..][1..] == events[i + 1..];
        Handle(events[i]);
      }
      assert events[|events|..] == [];
      root := stack[|stack| - 1];
      stack := stack[..|stack| - 1];
    }
  }
}
