/** JSON values as trees, their spellings, and the events a value is reported as: section 2 of RFC 8259. */
module JsonGrammar {
  import opened Options
  import opened JsonEvents

  datatype Json =
    | Leaf(v: Scalar)
    | Array(elements: seq<Json>)
    | Object(members: seq<Member>)

  datatype Member = Member(name: Text, value: Json)

  // ----- Events of a value -----

  /** Every end event carries the number of direct children. */
  function EventsOf(v: Json): seq<Event> {
    match v
    case Leaf(s) => [Value(s)]
    case Array(es) => [StartArray] + ElementEvents(es) + [EndArray(|es|)]
    case Object(ms) => [StartObject] + MemberEvents(ms) + [EndObject(|ms|)]
  }

  function ElementEvents(es: seq<Json>): seq<Event> {
    if es == [] then [] else EventsOf(es[0]) + ElementEvents(es[1..])
  }

  function MemberEvents(ms: seq<Member>): seq<Event> {
    if ms == [] then [] else [Key(ms[0].name)] + EventsOf(ms[0].value) + MemberEvents(ms[1..])
  }

  // ----- Spellings -----

  /** Where the spelling of `v` that begins at `i` ends, if one does. */
  function ValueEnd(r: Reader, v: Json, text: Text, i: nat): (e: Option<nat>)
    requires Sound(r) && i <= |text|
    ensures e.Some? ==> i < e.value <= |text|
    decreases v, 0
  {
    match v
    case Leaf(s) =>
      if Peek(text, i) == LEFT_CURLY || Peek(text, i) == LEFT_BRACKET then None
      else if r.scalar(text, i).Lexed? && r.scalar(text, i).e == Value(s) then Some(r.scalar(text, i).next) else None
    case Array(es) =>
      if Peek(text, i) != LEFT_BRACKET || r.skip(text, i + 1).None? then None
      else
        var j := r.skip(text, i + 1).value;
        if es == [] then (if Peek(text, j) == RIGHT_BRACKET then Some(j + 1) else None) else ElementsEnd(r, es, text, j)
    case Object(ms) =>
      if Peek(text, i) != LEFT_CURLY || r.skip(text, i + 1).None? then None
      else
        var j := r.skip(text, i + 1).value;
        if ms == [] then (if Peek(text, j) == RIGHT_CURLY then Some(j + 1) else None) else MembersEnd(r, ms, text, j)
  }

  /** After the last child: the closing bracket, with a comma before it where that is allowed. */
  function LastEnd(r: Reader, text: Text, i: nat, closing: nat): (e: Option<nat>)
    requires Sound(r) && i <= |text| && closing != COMMA && closing != 0
    ensures e.Some? ==> i < e.value <= |text|
  {
    if Peek(text, i) == closing then Some(i + 1)
    else if r.trailingCommas && Peek(text, i) == COMMA && r.skip(text, i + 1).Some? &&
            Peek(text, r.skip(text, i + 1).value) == closing then Some(r.skip(text, i + 1).value + 1)
    else None
  }

  function ElementsEnd(r: Reader, es: seq<Json>, text: Text, i: nat): (e: Option<nat>)
    requires Sound(r) && i <= |text| && es != []
    ensures e.Some? ==> i < e.value <= |text|
    decreases es, 1
  {
    var v := ValueEnd(r, es[0], text, i);
    if v.None? || r.skip(text, v.value).None? then None
    else
      var j := r.skip(text, v.value).value;
      if |es| == 1 then LastEnd(r, text, j, RIGHT_BRACKET)
      else if Peek(text, j) != COMMA || r.skip(text, j + 1).None? then None
      else ElementsEnd(r, es[1..], text, r.skip(text, j + 1).value)
  }

  function MembersEnd(r: Reader, ms: seq<Member>, text: Text, i: nat): (e: Option<nat>)
    requires Sound(r) && i <= |text| && ms != []
    ensures e.Some? ==> i < e.value <= |text|
    decreases ms, 1
  {
    var v := MemberEnd(r, ms[0], text, i);
    if v.None? || r.skip(text, v.value).None? then None
    else
      var j := r.skip(text, v.value).value;
      if |ms| == 1 then LastEnd(r, text, j, RIGHT_CURLY)
      else if Peek(text, j) != COMMA || r.skip(text, j + 1).None? then None
      else MembersEnd(r, ms[1..], text, r.skip(text, j + 1).value)
  }

  /** The name, a colon, the value. */
  function MemberEnd(r: Reader, m: Member, text: Text, i: nat): (e: Option<nat>)
    requires Sound(r) && i <= |text|
    ensures e.Some? ==> i < e.value <= |text|
    decreases m, 0
  {
    var k := r.key(text, i);
    if Peek(text, i) != QUOTE || k.Malformed? || k.e != Key(m.name) || r.skip(text, k.next).None? then None
    else
      var j := r.skip(text, k.next).value;
      if Peek(text, j) != COLON || r.skip(text, j + 1).None? then None
      else ValueEnd(r, m.value, text, r.skip(text, j + 1).value)
  }

  /** The events from the first element of a list to its end. */
  function ElementsTail(es: seq<Json>, count: nat): seq<Event> {
    ElementEvents(es) + [EndArray(count + |es|)]
  }

  function MembersTail(ms: seq<Member>, count: nat): seq<Event> {
    MemberEvents(ms) + [EndObject(count + |ms|)]
  }

  function OfMember(m: Member): seq<Event> {
    [Key(m.name)] + EventsOf(m.value)
  }

  lemma ElementsTailIs(es: seq<Json>, count: nat)
    requires es != []
    ensures ElementsTail(es, count) ==
            EventsOf(es[0]) + if |es| == 1 then [EndArray(count + 1)] else ElementsTail(es[1..], count + 1)
  {
    hide EventsOf;
    assert ElementEvents(es) == EventsOf(es[0]) + ElementEvents(es[1..]);
  }

  lemma MembersTailIs(ms: seq<Member>, count: nat)
    requires ms != []
    ensures MembersTail(ms, count) ==
            OfMember(ms[0]) + if |ms| == 1 then [EndObject(count + 1)] else MembersTail(ms[1..], count + 1)
  {
    hide EventsOf;
    assert MemberEvents(ms) == OfMember(ms[0]) + MemberEvents(ms[1..]);
  }

  lemma ContainerEvents(es: seq<Json>, ms: seq<Member>)
    ensures EventsOf(Array(es)) == [StartArray] + ElementsTail(es, 0)
    ensures EventsOf(Object(ms)) == [StartObject] + MembersTail(ms, 0)
    ensures ElementsTail([], 0) == [EndArray(0)] && MembersTail([], 0) == [EndObject(0)]
  {
  }

  lemma Associate(a: seq<Event>, b: seq<Event>, c: seq<Event>)
    ensures a + (b + c) == (a + b) + c
  {
  }

  // ----- The parser finds exactly the spellings -----

  /** A handler that takes everything. */
  ghost predicate Agreeable(r: Reader) {
    forall events: seq<Event>, e: Event {:trigger r.accepts(events, e)} :: r.accepts(events, e)
  }

  lemma ObjectOpens(r: Reader, text: Text, i: nat, events: seq<Event>)
    requires Sound(r) && Agreeable(r) && i <= |text| && Peek(text, i) == LEFT_CURLY
    ensures ValueAt(r, text, i, events) ==
            if r.skip(text, i + 1).None? then Broken(events + [StartObject])
            else if Peek(text, r.skip(text, i + 1).value) == RIGHT_CURLY then
              Done(r.skip(text, i + 1).value + 1, events + [StartObject] + [EndObject(0)])
            else MemberAt(r, text, r.skip(text, i + 1).value, events + [StartObject], 0)
  {
    assert ValueAt(r, text, i, events) == ObjectAt(r, text, i, events);
    hide MemberAt, ValueAt;
  }

  lemma ArrayOpens(r: Reader, text: Text, i: nat, events: seq<Event>)
    requires Sound(r) && Agreeable(r) && i <= |text| && Peek(text, i) == LEFT_BRACKET
    ensures ValueAt(r, text, i, events) ==
            if r.skip(text, i + 1).None? then Broken(events + [StartArray])
            else if Peek(text, r.skip(text, i + 1).value) == RIGHT_BRACKET then
              Done(r.skip(text, i + 1).value + 1, events + [StartArray] + [EndArray(0)])
            else ElementAt(r, text, r.skip(text, i + 1).value, events + [StartArray], 0)
  {
    assert ValueAt(r, text, i, events) == ArrayAt(r, text, i, events);
    hide ElementAt, ValueAt;
  }

  lemma ElementIs(r: Reader, text: Text, i: nat, events: seq<Event>, count: nat)
    requires Sound(r) && i <= |text|
    ensures var o := ValueAt(r, text, i, events);
            ElementAt(r, text, i, events, count) ==
            if o.Broken? then o
            else if r.skip(text, o.next).None? then Broken(o.events)
            else AfterElement(r, text, r.skip(text, o.next).value, o.events, count)
  {
    hide ValueAt, AfterElement;
  }

  /** Where the value of a member begins, when its name and its colon are there. */
  function MemberValueStart(r: Reader, text: Text, i: nat): (e: Option<nat>)
    requires Sound(r) && i <= |text|
    ensures e.Some? ==> i < e.value <= |text|
  {
    var k := r.key(text, i);
    if Peek(text, i) != QUOTE || k.Malformed? || r.skip(text, k.next).None? then None
    else
      var j := r.skip(text, k.next).value;
      if Peek(text, j) != COLON then None else r.skip(text, j + 1)
  }

  lemma MemberIs(r: Reader, text: Text, i: nat, events: seq<Event>, count: nat)
    requires Sound(r) && Agreeable(r) && i <= |text|
    ensures MemberValueStart(r, text, i).None? ==> MemberAt(r, text, i, events, count).Broken?
    ensures MemberValueStart(r, text, i).Some? ==>
              && Peek(text, i) == QUOTE && r.key(text, i).Lexed?
              && var o := ValueAt(r, text, MemberValueStart(r, text, i).value, events + [r.key(text, i).e]);
                 MemberAt(r, text, i, events, count) ==
                 if o.Broken? then o
                 else if r.skip(text, o.next).None? then Broken(o.events)
                 else AfterMember(r, text, r.skip(text, o.next).value, o.events, count)
  {
    hide ValueAt, AfterMember;
    var k := r.key(text, i);
    if Peek(text, i) == QUOTE && k.Lexed? && r.skip(text, k.next).Some? {
      var j := r.skip(text, k.next).value;
      assert MemberAt(r, text, i, events, count) == ColonAt(r, text, j, events + [k.e], count);
      if Peek(text, j) == COLON && r.skip(text, j + 1).Some? {
        assert ColonAt(r, text, j, events + [k.e], count) ==
               MemberValueAt(r, text, r.skip(text, j + 1).value, events + [k.e], count);
      }
    }
  }

  lemma MemberEndIs(r: Reader, m: Member, text: Text, i: nat)
    requires Sound(r) && i <= |text|
    ensures MemberEnd(r, m, text, i) ==
            if MemberValueStart(r, text, i).None? || r.key(text, i).e != Key(m.name) then None
            else ValueEnd(r, m.value, text, MemberValueStart(r, text, i).value)
  {
    hide ValueEnd;
  }

  /** A spelled value is parsed to its end and reported as its events. */
  lemma {:induction false} SpelledIsParsed(r: Reader, v: Json, text: Text, i: nat, events: seq<Event>)
    requires Sound(r) && Agreeable(r) && i <= |text| && ValueEnd(r, v, text, i).Some?
    ensures ValueAt(r, text, i, events) == Done(ValueEnd(r, v, text, i).value, events + EventsOf(v))
    ensures !Structural(Peek(text, i))
    decreases v, 0
  {
    hide EventsOf, ElementsTail, MembersTail;
    match v
    case Leaf(s) => LeafEvents(s);
    case Array(es) =>
      ArrayOpens(r, text, i, events);
      ContainerEvents(es, []);
      Associate(events, [StartArray], ElementsTail(es, 0));
      if es != [] {
        var j := r.skip(text, i + 1).value;
        hide ValueAt;
        ElementsAreParsed(r, es, text, j, events + [StartArray], 0);
      }
    case Object(ms) =>
      ObjectOpens(r, text, i, events);
      ContainerEvents([], ms);
      Associate(events, [StartObject], MembersTail(ms, 0));
      if ms != [] {
        var j := r.skip(text, i + 1).value;
        hide ValueAt;
        MembersAreParsed(r, ms, text, j, events + [StartObject], 0);
      }
  }

  lemma LeafEvents(s: Scalar)
    ensures EventsOf(Leaf(s)) == [Value(s)]
  {
  }

  /** The closing bracket of a list, or a trailing comma and the bracket. */
  lemma LastIsParsed(r: Reader, text: Text, i: nat, events: seq<Event>, count: nat)
    requires Sound(r) && Agreeable(r) && i <= |text|
    ensures LastEnd(r, text, i, RIGHT_BRACKET).Some? ==>
              AfterElement(r, text, i, events, count) ==
              Done(LastEnd(r, text, i, RIGHT_BRACKET).value, events + [EndArray(count + 1)])
    ensures LastEnd(r, text, i, RIGHT_CURLY).Some? ==>
              AfterMember(r, text, i, events, count) ==
              Done(LastEnd(r, text, i, RIGHT_CURLY).value, events + [EndObject(count + 1)])
  {
    hide ElementAt, MemberAt;
  }

  lemma AfterComma(r: Reader, text: Text, j: nat, k: nat, events: seq<Event>, count: nat)
    requires Sound(r) && j < |text| && Peek(text, j) == COMMA && r.skip(text, j + 1) == Some(k)
    ensures Peek(text, k) != RIGHT_BRACKET || !r.trailingCommas ==>
              AfterElement(r, text, j, events, count) == ElementAt(r, text, k, events, count + 1)
    ensures Peek(text, k) != RIGHT_CURLY || !r.trailingCommas ==>
              AfterMember(r, text, j, events, count) == MemberAt(r, text, k, events, count + 1)
  {
    hide ElementAt, MemberAt;
  }

  lemma {:induction false} ElementsAreParsed(r: Reader, es: seq<Json>, text: Text, i: nat, events: seq<Event>, count: nat)
    requires Sound(r) && Agreeable(r) && i <= |text| && es != [] && ElementsEnd(r, es, text, i).Some?
    ensures ElementAt(r, text, i, events, count) == Done(ElementsEnd(r, es, text, i).value, events + ElementsTail(es, count))
    ensures !Structural(Peek(text, i))
    decreases es, 1
  {
    hide ElementAt, ValueAt, ValueEnd, ElementsTail, AfterElement, EventsOf;
    var j := r.skip(text, ValueEnd(r, es[0], text, i).value).value;
    var evs := events + EventsOf(es[0]);
    SpelledIsParsed(r, es[0], text, i, events);
    ElementIs(r, text, i, events, count);
    ElementsTailIs(es, count);
    if |es| == 1 {
      LastIsParsed(r, text, j, evs, count);
      Associate(events, EventsOf(es[0]), [EndArray(count + 1)]);
    } else {
      var k := r.skip(text, j + 1).value;
      ElementsAreParsed(r, es[1..], text, k, evs, count + 1);
      AfterComma(r, text, j, k, evs, count);
      Associate(events, EventsOf(es[0]), ElementsTail(es[1..], count + 1));
    }
  }

  lemma {:induction false} MembersAreParsed(r: Reader, ms: seq<Member>, text: Text, i: nat, events: seq<Event>, count: nat)
    requires Sound(r) && Agreeable(r) && i <= |text| && ms != [] && MembersEnd(r, ms, text, i).Some?
    ensures MemberAt(r, text, i, events, count) == Done(MembersEnd(r, ms, text, i).value, events + MembersTail(ms, count))
    ensures Peek(text, i) == QUOTE
    decreases ms, 1
  {
    hide MemberAt, ValueAt, ValueEnd, MembersTail, AfterMember, EventsOf, MemberEnd, MemberValueStart;
    var m := ms[0];
    MemberEndIs(r, m, text, i);
    MemberIs(r, text, i, events, count);
    SpelledIsParsed(r, m.value, text, MemberValueStart(r, text, i).value, events + [Key(m.name)]);
    Associate(events, [Key(m.name)], EventsOf(m.value));
    var j := r.skip(text, MemberEnd(r, m, text, i).value).value;
    var evs := events + OfMember(m);
    MembersTailIs(ms, count);
    if |ms| == 1 {
      LastIsParsed(r, text, j, evs, count);
      Associate(events, OfMember(m), [EndObject(count + 1)]);
    } else {
      var k := r.skip(text, j + 1).value;
      MembersAreParsed(r, ms[1..], text, k, evs, count + 1);
      AfterComma(r, text, j, k, evs, count);
      Associate(events, OfMember(m), MembersTail(ms[1..], count + 1));
    }
  }

  /** A list that goes on goes on with a comma, and not with a closing bracket behind it. */
  lemma NotLast(r: Reader, text: Text, j: nat, events: seq<Event>, count: nat)
    requires Sound(r) && Agreeable(r) && j <= |text|
    ensures LastEnd(r, text, j, RIGHT_BRACKET).None? && AfterElement(r, text, j, events, count).Done? ==>
              && Peek(text, j) == COMMA && r.skip(text, j + 1).Some?
              && (Peek(text, r.skip(text, j + 1).value) != RIGHT_BRACKET || !r.trailingCommas)
    ensures LastEnd(r, text, j, RIGHT_CURLY).None? && AfterMember(r, text, j, events, count).Done? ==>
              && Peek(text, j) == COMMA && r.skip(text, j + 1).Some?
              && (Peek(text, r.skip(text, j + 1).value) != RIGHT_CURLY || !r.trailingCommas)
  {
    hide ElementAt, MemberAt;
  }

  /** A parsed value is a spelled one, and what was reported are its events. */
  lemma {:induction false} ParsedIsSpelled(r: Reader, text: Text, i: nat, events: seq<Event>) returns (v: Json)
    requires Sound(r) && Agreeable(r) && i <= |text| && ValueAt(r, text, i, events).Done?
    ensures ValueEnd(r, v, text, i) == Some(ValueAt(r, text, i, events).next)
    ensures ValueAt(r, text, i, events).events == events + EventsOf(v)
    decreases |text| - i, 2
  {
    hide EventsOf, ElementsTail, MembersTail;
    if Peek(text, i) == LEFT_CURLY {
      hide ValueAt;
      ObjectOpens(r, text, i, events);
      var j := r.skip(text, i + 1).value;
      var ms := [];
      if Peek(text, j) != RIGHT_CURLY {
        ms := ParsedMembers(r, text, j, events + [StartObject], 0);
      }
      v := Object(ms);
      ContainerEvents([], ms);
      Associate(events, [StartObject], MembersTail(ms, 0));
    } else if Peek(text, i) == LEFT_BRACKET {
      hide ValueAt;
      ArrayOpens(r, text, i, events);
      var j := r.skip(text, i + 1).value;
      var es := [];
      if Peek(text, j) != RIGHT_BRACKET {
        es := ParsedElements(r, text, j, events + [StartArray], 0);
      }
      v := Array(es);
      ContainerEvents(es, []);
      Associate(events, [StartArray], ElementsTail(es, 0));
    } else {
      v := Leaf(r.scalar(text, i).e.v);
      LeafEvents(v.v);
    }
  }

  lemma {:induction false} ParsedElements(r: Reader, text: Text, i: nat, events: seq<Event>, count: nat) returns (es: seq<Json>)
    requires Sound(r) && Agreeable(r) && i <= |text| && ElementAt(r, text, i, events, count).Done?
    ensures es != [] && ElementsEnd(r, es, text, i) == Some(ElementAt(r, text, i, events, count).next)
    ensures ElementAt(r, text, i, events, count).events == events + ElementsTail(es, count)
    decreases |text| - i, 3
  {
    hide ElementAt, ValueAt, ValueEnd, ElementsTail, AfterElement, EventsOf;
    ElementIs(r, text, i, events, count);
    var v := ParsedIsSpelled(r, text, i, events);
    var j := r.skip(text, ValueEnd(r, v, text, i).value).value;
    var evs := events + EventsOf(v);
    if LastEnd(r, text, j, RIGHT_BRACKET).Some? {
      es := [v];
      LastIsParsed(r, text, j, evs, count);
      ElementsTailIs(es, count);
      Associate(events, EventsOf(v), [EndArray(count + 1)]);
    } else {
      NotLast(r, text, j, evs, count);
      var k := r.skip(text, j + 1).value;
      AfterComma(r, text, j, k, evs, count);
      var rest := ParsedElements(r, text, k, evs, count + 1);
      es := [v] + rest;
      assert es[1..] == rest;
      ElementsTailIs(es, count);
      Associate(events, EventsOf(v), ElementsTail(rest, count + 1));
    }
  }

  lemma {:induction false} ParsedMembers(r: Reader, text: Text, i: nat, events: seq<Event>, count: nat) returns (ms: seq<Member>)
    requires Sound(r) && Agreeable(r) && i <= |text| && MemberAt(r, text, i, events, count).Done?
    ensures ms != [] && MembersEnd(r, ms, text, i) == Some(MemberAt(r, text, i, events, count).next)
    ensures MemberAt(r, text, i, events, count).events == events + MembersTail(ms, count)
    decreases |text| - i, 3
  {
    hide MemberAt, ValueAt, ValueEnd, MembersTail, AfterMember, EventsOf, MemberEnd, MemberValueStart;
    MemberIs(r, text, i, events, count);
    var name := r.key(text, i).e.s;
    var v := ParsedIsSpelled(r, text, MemberValueStart(r, text, i).value, events + [Key(name)]);
    var m := Member(name, v);
    MemberEndIs(r, m, text, i);
    Associate(events, [Key(name)], EventsOf(v));
    var j := r.skip(text, MemberEnd(r, m, text, i).value).value;
    var evs := events + OfMember(m);
    if LastEnd(r, text, j, RIGHT_CURLY).Some? {
      ms := [m];
      LastIsParsed(r, text, j, evs, count);
      MembersTailIs(ms, count);
      Associate(events, OfMember(m), [EndObject(count + 1)]);
    } else {
      NotLast(r, text, j, evs, count);
      var k := r.skip(text, j + 1).value;
      AfterComma(r, text, j, k, evs, count);
      var rest := ParsedMembers(r, text, k, evs, count + 1);
      ms := [m] + rest;
      assert ms[1..] == rest;
      MembersTailIs(ms, count);
      Associate(events, OfMember(m), MembersTail(rest, count + 1));
    }
  }

  // ----- Documents -----

  /** Where the document with the root value `v` ends for the parser, if the text is one. */
  function DocumentEnd(r: Reader, v: Json, text: Text): Option<nat>
    requires Sound(r)
  {
    if r.skip(text, 0).None? then None
    else
      match ValueEnd(r, v, text, r.skip(text, 0).value)
      case None => None
      case Some(j) =>
        if r.stopWhenDone then Some(j)
        else if r.skip(text, j).Some? && Peek(text, r.skip(text, j).value) == 0 then r.skip(text, j)
        else None
  }

  /** A text is accepted exactly when it spells a value, and then it is reported as that value's events. */
  lemma AcceptedIsSpelled(r: Reader, text: Text, end: nat, events: seq<Event>)
    requires Sound(r) && Agreeable(r)
    ensures Document(r, text) == Accepted(end, events) <==>
            exists v: Json :: DocumentEnd(r, v, text) == Some(end) && events == EventsOf(v)
  {
    hide ValueAt, ValueEnd, EventsOf;
    if r.skip(text, 0).Some? {
      var i := r.skip(text, 0).value;
      if Document(r, text) == Accepted(end, events) {
        var v := ParsedIsSpelled(r, text, i, []);
        assert [] + EventsOf(v) == EventsOf(v);
        assert DocumentEnd(r, v, text) == Some(end);
      }
      if v: Json :| DocumentEnd(r, v, text) == Some(end) && events == EventsOf(v) {
        SpelledIsParsed(r, v, text, i, []);
        assert [] + EventsOf(v) == EventsOf(v);
      }
    }
  }
}
