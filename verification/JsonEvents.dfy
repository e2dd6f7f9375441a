/** Recursive descent over JSON text as functions: what reader.h reports to its handler, and where it stops. */
module JsonEvents {
  import opened Options

  type Text = seq<nat>

  /** Scalars are what their own parsing functions make of them. */
  datatype Scalar = Null | Bool(b: bool) | String(s: Text) | Integer(value: int) | Double(digits: Text)

  datatype Event =
    | StartObject
    | Key(s: Text)
    | EndObject(memberCount: nat)
    | StartArray
    | EndArray(elementCount: nat)
    | Value(v: Scalar)

  datatype Lexed = Lexed(e: Event, next: nat) | Malformed

  /**
   * What both parsers share: skipping white space and comments, the functions for keys and scalars,
   * the flags, and the handler, which may refuse an event after what it has seen.
   */
  datatype Reader = Reader(
    skip: (Text, nat) -> Option<nat>,
    key: (Text, nat) -> Lexed,
    scalar: (Text, nat) -> Lexed,
    accepts: (seq<Event>, Event) -> bool,
    trailingCommas: bool,
    stopWhenDone: bool)

  function Peek(text: Text, i: nat): nat {
    if i < |text| then text[i] else 0
  }

  const QUOTE: nat := '"' as nat
  const COMMA: nat := ',' as nat
  const COLON: nat := ':' as nat
  const LEFT_BRACKET: nat := '[' as nat
  const RIGHT_BRACKET: nat := ']' as nat
  const LEFT_CURLY: nat := '{' as nat
  const RIGHT_CURLY: nat := '}' as nat

  predicate Structural(c: nat) {
    c == COMMA || c == COLON || c == RIGHT_BRACKET || c == RIGHT_CURLY || c == 0
  }

  /** The shared functions never step back, and no scalar begins with a structural character or at the end. */
  ghost predicate Sound(r: Reader) {
    && (forall t: Text, i: nat {:trigger r.skip(t, i)} :: i <= |t| && r.skip(t, i).Some? ==> i <= r.skip(t, i).value <= |t|)
    && (forall t: Text, i: nat {:trigger r.key(t, i)} :: r.key(t, i).Lexed? ==> i < r.key(t, i).next <= |t| && r.key(t, i).e.Key?)
    && (forall t: Text, i: nat {:trigger r.scalar(t, i)} :: r.scalar(t, i).Lexed? ==>
          i < r.scalar(t, i).next <= |t| && !Structural(Peek(t, i)) && r.scalar(t, i).e.Value?)
  }

  /** Where a value, a member list or an element list ends, or what was reported before it broke off. */
  datatype Outcome = Done(next: nat, events: seq<Event>) | Broken(events: seq<Event>)

  function Report(r: Reader, events: seq<Event>, e: Event, next: nat): Outcome {
    if r.accepts(events, e) then Done(next, events + [e]) else Broken(events + [e])
  }

  /** One character that must be there, and the white space behind it. */
  function Skip(r: Reader, text: Text, i: nat, events: seq<Event>): (o: Outcome)
    requires Sound(r) && i <= |text|
    ensures o.Done? ==> i <= o.next <= |text|
  {
    match r.skip(text, i)
    case None => Broken(events)
    case Some(j) => Done(j, events)
  }

  function SkipAfter(r: Reader, text: Text, o: Outcome): (o': Outcome)
    requires Sound(r) && (o.Done? ==> o.next <= |text|)
    ensures o'.Done? ==> o.Done? && o.next <= o'.next <= |text|
  {
    match o
    case Broken(_) => o
    case Done(j, events) => Skip(r, text, j, events)
  }

  function Lex(r: Reader, events: seq<Event>, l: Lexed): Outcome {
    match l
    case Malformed => Broken(events)
    case Lexed(e, j) => Report(r, events, e, j)
  }

  function ValueAt(r: Reader, text: Text, i: nat, events: seq<Event>): (o: Outcome)
    requires Sound(r) && i <= |text|
    ensures o.Done? ==> i < o.next <= |text|
    decreases |text| - i, 4
  {
    if Peek(text, i) == LEFT_CURLY then ObjectAt(r, text, i, events)
    else if Peek(text, i) == LEFT_BRACKET then ArrayAt(r, text, i, events)
    else Lex(r, events, r.scalar(text, i))
  }

  function ObjectAt(r: Reader, text: Text, i: nat, events: seq<Event>): (o: Outcome)
    requires Sound(r) && i < |text|
    ensures o.Done? ==> i < o.next <= |text|
    decreases |text| - i, 0
  {
    match SkipAfter(r, text, Report(r, events, StartObject, i + 1))
    case Broken(evs) => Broken(evs)
    case Done(j, evs) => ObjectInitial(r, text, j, evs)
  }

  function ObjectInitial(r: Reader, text: Text, i: nat, events: seq<Event>): (o: Outcome)
    requires Sound(r) && i <= |text|
    ensures o.Done? ==> i < o.next <= |text|
    decreases |text| - i, 6
  {
    if Peek(text, i) == RIGHT_CURLY then Report(r, events, EndObject(0), i + 1)
    else MemberAt(r, text, i, events, 0)
  }

  /** A member, with `count` members before it. */
  function MemberAt(r: Reader, text: Text, i: nat, events: seq<Event>, count: nat): (o: Outcome)
    requires Sound(r) && i <= |text|
    ensures o.Done? ==> i < o.next <= |text|
    decreases |text| - i, 5
  {
    if Peek(text, i) != QUOTE then Broken(events)
    else
      match SkipAfter(r, text, Lex(r, events, r.key(text, i)))
      case Broken(evs) => Broken(evs)
      case Done(j, evs) => ColonAt(r, text, j, evs, count)
  }

  function ColonAt(r: Reader, text: Text, i: nat, events: seq<Event>, count: nat): (o: Outcome)
    requires Sound(r) && i <= |text|
    ensures o.Done? ==> i < o.next <= |text|
    decreases |text| - i, 5
  {
    if Peek(text, i) != COLON then Broken(events)
    else
      match Skip(r, text, i + 1, events)
      case Broken(evs) => Broken(evs)
      case Done(j, evs) => MemberValueAt(r, text, j, evs, count)
  }

  function MemberValueAt(r: Reader, text: Text, i: nat, events: seq<Event>, count: nat): (o: Outcome)
    requires Sound(r) && i <= |text|
    ensures o.Done? ==> i < o.next <= |text|
    decreases |text| - i, 5
  {
    match SkipAfter(r, text, ValueAt(r, text, i, events))
    case Broken(evs) => Broken(evs)
    case Done(j, evs) => AfterMember(r, text, j, evs, count)
  }

  function AfterMember(r: Reader, text: Text, i: nat, events: seq<Event>, count: nat): (o: Outcome)
    requires Sound(r) && i <= |text|
    ensures o.Done? ==> i < o.next <= |text|
    decreases |text| - i, 5
  {
    if Peek(text, i) == RIGHT_CURLY then Report(r, events, EndObject(count + 1), i + 1)
    else if Peek(text, i) != COMMA then Broken(events)
    else
      match Skip(r, text, i + 1, events)
      case Broken(evs) => Broken(evs)
      case Done(j, evs) => AfterMemberComma(r, text, j, evs, count + 1)
  }

  function AfterMemberComma(r: Reader, text: Text, i: nat, events: seq<Event>, count: nat): (o: Outcome)
    requires Sound(r) && i <= |text|
    ensures o.Done? ==> i < o.next <= |text|
    decreases |text| - i, 6
  {
    if r.trailingCommas && Peek(text, i) == RIGHT_CURLY then Report(r, events, EndObject(count), i + 1)
    else MemberAt(r, text, i, events, count)
  }

  function ArrayAt(r: Reader, text: Text, i: nat, events: seq<Event>): (o: Outcome)
    requires Sound(r) && i < |text|
    ensures o.Done? ==> i < o.next <= |text|
    decreases |text| - i, 0
  {
    match SkipAfter(r, text, Report(r, events, StartArray, i + 1))
    case Broken(evs) => Broken(evs)
    case Done(j, evs) => ArrayInitial(r, text, j, evs)
  }

  function ArrayInitial(r: Reader, text: Text, i: nat, events: seq<Event>): (o: Outcome)
    requires Sound(r) && i <= |text|
    ensures o.Done? ==> i < o.next <= |text|
    decreases |text| - i, 6
  {
    if Peek(text, i) == RIGHT_BRACKET then Report(r, events, EndArray(0), i + 1)
    else ElementAt(r, text, i, events, 0)
  }

  /** An element, with `count` elements before it. */
  function ElementAt(r: Reader, text: Text, i: nat, events: seq<Event>, count: nat): (o: Outcome)
    requires Sound(r) && i <= |text|
    ensures o.Done? ==> i < o.next <= |text|
    decreases |text| - i, 5
  {
    match SkipAfter(r, text, ValueAt(r, text, i, events))
    case Broken(evs) => Broken(evs)
    case Done(j, evs) => AfterElement(r, text, j, evs, count)
  }

  function AfterElement(r: Reader, text: Text, i: nat, events: seq<Event>, count: nat): (o: Outcome)
    requires Sound(r) && i <= |text|
    ensures o.Done? ==> i < o.next <= |text|
    decreases |text| - i, 5
  {
    if Peek(text, i) == RIGHT_BRACKET then Report(r, events, EndArray(count + 1), i + 1)
    else if Peek(text, i) != COMMA then Broken(events)
    else
      match Skip(r, text, i + 1, events)
      case Broken(evs) => Broken(evs)
      case Done(j, evs) => AfterElementComma(r, text, j, evs, count + 1)
  }

  function AfterElementComma(r: Reader, text: Text, i: nat, events: seq<Event>, count: nat): (o: Outcome)
    requires Sound(r) && i <= |text|
    ensures o.Done? ==> i < o.next <= |text|
    decreases |text| - i, 6
  {
    if r.trailingCommas && Peek(text, i) == RIGHT_BRACKET then Report(r, events, EndArray(count), i + 1)
    else ElementAt(r, text, i, events, count)
  }

  // ----- A whole document -----

  datatype Result = Accepted(next: nat, events: seq<Event>) | Rejected(events: seq<Event>)

  /** After the root value: nothing else may follow, unless the parser is told to stop here. */
  function AfterRoot(r: Reader, text: Text, o: Outcome): Result
    requires Sound(r) && (o.Done? ==> o.next <= |text|)
  {
    match o
    case Broken(events) => Rejected(events)
    case Done(i, events) =>
      if r.stopWhenDone then Accepted(i, events)
      else
        match Skip(r, text, i, events)
        case Broken(evs) => Rejected(evs)
        case Done(j, evs) => if Peek(text, j) == 0 then Accepted(j, evs) else Rejected(evs)
  }

  function RootAt(r: Reader, text: Text, i: nat, events: seq<Event>): Result
    requires Sound(r) && i <= |text|
  {
    if Peek(text, i) == 0 then Rejected(events) else AfterRoot(r, text, ValueAt(r, text, i, events))
  }

  function Document(r: Reader, text: Text): Result
    requires Sound(r)
  {
    match Skip(r, text, 0, [])
    case Broken(evs) => Rejected(evs)
    case Done(i, evs) => RootAt(r, text, i, evs)
  }
}
