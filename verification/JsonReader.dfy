/** The two parsers of reader.h: recursive descent, and a state table with an explicit stack. */
module JsonReaders {
  import opened Options
  import opened JsonEvents

  datatype ParsingState =
    | FinishState | ErrorState | StartState
    | ObjectInitialState | MemberKeyState | MemberValueState | ObjectFinishState
    | ArrayInitialState | ElementState | ArrayFinishState
    | ValueState
    | ElementDelimiterState | MemberDelimiterState | KeyValueDelimiterState

  datatype Token =
    | LeftBracketToken | RightBracketToken | LeftCurlyBracketToken | RightCurlyBracketToken
    | CommaToken | ColonToken | StringToken | FalseToken | TrueToken | NullToken | NumberToken

  function Tokenize(c: nat): Token {
    if c == QUOTE then StringToken
    else if c == COMMA then CommaToken
    else if c == COLON then ColonToken
    else if c == LEFT_BRACKET then LeftBracketToken
    else if c == RIGHT_BRACKET then RightBracketToken
    else if c == 'f' as nat then FalseToken
    else if c == 'n' as nat then NullToken
    else if c == 't' as nat then TrueToken
    else if c == LEFT_CURLY then LeftCurlyBracketToken
    else if c == RIGHT_CURLY then RightCurlyBracketToken
    else NumberToken
  }

  /** The rows of the table in which a value may begin. */
  function ValueRow(token: Token, onScalar: ParsingState, onRightBracket: ParsingState): ParsingState {
    match token
    case LeftBracketToken => ArrayInitialState
    case RightBracketToken => onRightBracket
    case LeftCurlyBracketToken => ObjectInitialState
    case RightCurlyBracketToken => ErrorState
    case CommaToken => ErrorState
    case ColonToken => ErrorState
    case _ => onScalar
  }

  /** The table G: state and lookahead token to the state to go to. */
  function Predict(state: ParsingState, token: Token): ParsingState {
    match state
    case FinishState => ErrorState
    case ErrorState => ErrorState
    case StartState => ValueRow(token, ValueState, ErrorState)
    case ObjectInitialState =>
      if token == RightCurlyBracketToken then ObjectFinishState
      else if token == StringToken then MemberKeyState else ErrorState
    case MemberKeyState => if token == ColonToken then KeyValueDelimiterState else ErrorState
    case MemberValueState =>
      if token == RightCurlyBracketToken then ObjectFinishState
      else if token == CommaToken then MemberDelimiterState else ErrorState
    case ObjectFinishState => ErrorState
    case ArrayInitialState => ValueRow(token, ElementState, ArrayFinishState)
    case ElementState =>
      if token == RightBracketToken then ArrayFinishState
      else if token == CommaToken then ElementDelimiterState else ErrorState
    case ArrayFinishState => ErrorState
    case ValueState => ErrorState
    case ElementDelimiterState => ValueRow(token, ElementState, ArrayFinishState)
    case MemberDelimiterState =>
      if token == RightCurlyBracketToken then ObjectFinishState
      else if token == StringToken then MemberKeyState else ErrorState
    case KeyValueDelimiterState => ValueRow(token, MemberValueState, ErrorState)
  }

  /** Two entries of the stack: the state to return to, and the number of commas seen. */
  datatype Frame = Frame(resume: ParsingState, count: nat)

  // ----- What recursive descent would still do from a configuration of the table-driven parser -----

  /** The containers whose frames are below the top are those a value inside them returns to. */
  ghost predicate Nested(stack: seq<Frame>) {
    && (stack != [] ==> stack[0].resume.StartState?)
    && forall k :: 0 < k < |stack| ==> stack[k].resume.ElementState? || stack[k].resume.MemberValueState?
  }

  /** Which states go with an empty and which with a non-empty stack. */
  predicate Matching(state: ParsingState, stack: seq<Frame>) {
    match state
    case StartState => stack == []
    case FinishState => stack == []
    case ObjectInitialState => stack != [] && stack[|stack| - 1].count == 0
    case ArrayInitialState => stack != [] && stack[|stack| - 1].count == 0
    case ErrorState => false
    case ObjectFinishState => false
    case ArrayFinishState => false
    case ValueState => false
    case _ => stack != []
  }

  /** What is left of the innermost container. */
  ghost function Innermost(r: Reader, text: Text, state: ParsingState, count: nat, i: nat, events: seq<Event>): (o: Outcome)
    requires Sound(r) && i <= |text|
    requires !state.StartState? && !state.FinishState? && !state.ErrorState? && !state.ValueState?
    requires !state.ObjectFinishState? && !state.ArrayFinishState?
    ensures o.Done? ==> o.next <= |text|
  {
    match state
    case ObjectInitialState => ObjectInitial(r, text, i, events)
    case MemberKeyState => ColonAt(r, text, i, events, count)
    case KeyValueDelimiterState => MemberValueAt(r, text, i, events, count)
    case MemberValueState => AfterMember(r, text, i, events, count)
    case MemberDelimiterState => AfterMemberComma(r, text, i, events, count)
    case ArrayInitialState => ArrayInitial(r, text, i, events)
    case ElementState => AfterElement(r, text, i, events, count)
    case ElementDelimiterState => AfterElementComma(r, text, i, events, count)
  }

  /** A container is complete: go on in the one around it, or at the end of the document. */
  ghost function Unwind(r: Reader, text: Text, o: Outcome, stack: seq<Frame>): Result
    requires Sound(r) && stack != [] && Nested(stack) && (o.Done? ==> o.next <= |text|)
    decreases |stack|, 0
  {
    var outer, resume := stack[..|stack| - 1], stack[|stack| - 1].resume;
    if resume.StartState? then AfterRoot(r, text, o)
    else
      match SkipAfter(r, text, o)
      case Broken(evs) => Rejected(evs)
      case Done(i, evs) =>
        if outer == [] then Rejected(evs)
        else Unwind(r, text, Innermost(r, text, resume, outer[|outer| - 1].count, i, evs), outer)
  }

  /** What recursive descent makes of the rest, from the head of the loop. */
  ghost function Remaining(r: Reader, text: Text, state: ParsingState, stack: seq<Frame>, i: nat, events: seq<Event>): Result
    requires Sound(r) && Nested(stack) && Matching(state, stack) && i <= |text|
  {
    if state.StartState? then RootAt(r, text, i, events)
    else if state.FinishState? then (if Peek(text, i) == 0 then Accepted(i, events) else Rejected(events))
    else Unwind(r, text, Innermost(r, text, state, stack[|stack| - 1].count, i, events), stack)
  }

  /** The same after a transition, before white space is skipped. */
  ghost function Onward(r: Reader, text: Text, state: ParsingState, stack: seq<Frame>, i: nat, events: seq<Event>): Result
    requires Sound(r) && Nested(stack) && Matching(state, stack) && i <= |text|
  {
    if state.FinishState? then AfterRoot(r, text, Done(i, events))
    else
      match Skip(r, text, i, events)
      case Broken(evs) => Rejected(evs)
      case Done(j, evs) => Remaining(r, text, state, stack, j, evs)
  }

  // ----- Each transition does what recursive descent does -----

  lemma UnwindBroken(r: Reader, text: Text, events: seq<Event>, stack: seq<Frame>)
    requires Sound(r) && stack != [] && Nested(stack)
    ensures Unwind(r, text, Broken(events), stack) == Rejected(events)
  {
  }

  lemma NoValue(r: Reader, text: Text, i: nat, events: seq<Event>, count: nat)
    requires Sound(r) && i <= |text| && Structural(Peek(text, i))
    ensures ValueAt(r, text, i, events) == Broken(events)
    ensures MemberValueAt(r, text, i, events, count) == Broken(events)
    ensures ElementAt(r, text, i, events, count) == Broken(events)
  {
  }

  /** A container in a state that has no entry for the next character, or at the end of the text. */
  lemma InnermostBreaks(r: Reader, text: Text, state: ParsingState, count: nat, i: nat, events: seq<Event>)
    requires Sound(r) && i <= |text|
    requires !state.StartState? && !state.FinishState? && !state.ErrorState? && !state.ValueState?
    requires !state.ObjectFinishState? && !state.ArrayFinishState?
    requires Peek(text, i) == 0 || Predict(state, Tokenize(Peek(text, i))).ErrorState?
    requires state.ObjectInitialState? || state.ArrayInitialState? ==> count == 0
    ensures Innermost(r, text, state, count, i, events) == Broken(events)
  {
    if Structural(Peek(text, i)) {
      NoValue(r, text, i, events, count);
    }
    hide ValueAt, ElementAt, MemberValueAt;
    match state {
      case ObjectInitialState => assert MemberAt(r, text, i, events, 0) == Broken(events);
      case MemberKeyState =>
      case KeyValueDelimiterState => assert MemberValueAt(r, text, i, events, count) == Broken(events);
      case MemberValueState =>
      case MemberDelimiterState => assert MemberAt(r, text, i, events, count) == Broken(events);
      case ArrayInitialState => assert ElementAt(r, text, i, events, 0) == Broken(events);
      case ElementState =>
      case ElementDelimiterState => assert ElementAt(r, text, i, events, count) == Broken(events);
    }
  }

  /** Where the table says error, recursive descent fails without another event. */
  lemma ErrorEntry(r: Reader, text: Text, state: ParsingState, stack: seq<Frame>, i: nat, events: seq<Event>)
    requires Sound(r) && Nested(stack) && Matching(state, stack) && i < |text| && Peek(text, i) != 0
    requires Predict(state, Tokenize(Peek(text, i))).ErrorState?
    ensures Remaining(r, text, state, stack, i, events) == Rejected(events)
  {
    if state.StartState? {
      NoValue(r, text, i, events, 0);
    } else if !state.FinishState? {
      InnermostBreaks(r, text, state, stack[|stack| - 1].count, i, events);
      UnwindBroken(r, text, events, stack);
    }
    hide ValueAt, Unwind;
  }

  /** At the end of the text only a finished document is accepted. */
  lemma AtEnd(r: Reader, text: Text, state: ParsingState, stack: seq<Frame>, i: nat, events: seq<Event>)
    requires Sound(r) && Nested(stack) && Matching(state, stack) && i <= |text| && Peek(text, i) == 0
    ensures Remaining(r, text, state, stack, i, events) == if state.FinishState? then Accepted(i, events) else Rejected(events)
  {
    if !state.StartState? && !state.FinishState? {
      InnermostBreaks(r, text, state, stack[|stack| - 1].count, i, events);
      UnwindBroken(r, text, events, stack);
    }
    hide ValueAt, Unwind;
  }

  function ReturnState(state: ParsingState): ParsingState {
    if state.ArrayInitialState? || state.ElementDelimiterState? then ElementState
    else if state.KeyValueDelimiterState? then MemberValueState
    else state
  }

  predicate ValueExpected(state: ParsingState) {
    state.StartState? || state.ArrayInitialState? || state.ElementDelimiterState? || state.KeyValueDelimiterState?
  }

  /** A value inside a container, whatever it is, and then the rest of the container. */
  lemma InnermostValue(r: Reader, text: Text, state: ParsingState, count: nat, i: nat, events: seq<Event>)
    requires Sound(r) && i < |text| && ValueExpected(state) && !state.StartState?
    requires state.ArrayInitialState? ==> count == 0
    requires state.ArrayInitialState? || state.ElementDelimiterState? ==> Peek(text, i) != RIGHT_BRACKET
    ensures Innermost(r, text, state, count, i, events) ==
            match SkipAfter(r, text, ValueAt(r, text, i, events))
            case Broken(evs) => Broken(evs)
            case Done(j, evs) => Innermost(r, text, ReturnState(state), count, j, evs)
  {
    assert ElementAt(r, text, i, events, count) ==
           match SkipAfter(r, text, ValueAt(r, text, i, events))
           case Broken(evs) => Broken(evs)
           case Done(j, evs) => AfterElement(r, text, j, evs, count);
    hide ValueAt, ElementAt, AfterElement, AfterMember;
  }

  lemma ValueInside(r: Reader, text: Text, state: ParsingState, stack: seq<Frame>, i: nat, events: seq<Event>)
    requires Sound(r) && Nested(stack) && Matching(state, stack) && i < |text|
    requires ValueExpected(state) && !state.StartState?
    requires state.ArrayInitialState? || state.ElementDelimiterState? ==> Peek(text, i) != RIGHT_BRACKET
    ensures Remaining(r, text, state, stack, i, events) ==
            match ValueAt(r, text, i, events)
            case Broken(evs) => Rejected(evs)
            case Done(j, evs) => Onward(r, text, ReturnState(state), stack, j, evs)
  {
    InnermostValue(r, text, state, stack[|stack| - 1].count, i, events);
    match ValueAt(r, text, i, events)
    case Broken(evs) => UnwindBroken(r, text, evs, stack);
    case Done(j, evs) =>
      if r.skip(text, j).None? {
        UnwindBroken(r, text, evs, stack);
      }
  }

  /** An opening bracket: the container is what recursive descent parses next, and its frame says where to go on. */
  lemma Opens(r: Reader, text: Text, state: ParsingState, stack: seq<Frame>, i: nat, events: seq<Event>)
    requires Sound(r) && Nested(stack) && Matching(state, stack) && i < |text| && ValueExpected(state)
    requires Peek(text, i) == LEFT_CURLY || Peek(text, i) == LEFT_BRACKET
    ensures var curly := Peek(text, i) == LEFT_CURLY;
            var e := if curly then StartObject else StartArray;
            var stack' := stack + [Frame(ReturnState(state), 0)];
            && Nested(stack')
            && Remaining(r, text, state, stack, i, events) ==
               if r.accepts(events, e) then
                 Onward(r, text, if curly then ObjectInitialState else ArrayInitialState, stack', i + 1, events + [e])
               else Rejected(events + [e])
  {
    var stack' := stack + [Frame(ReturnState(state), 0)];
    assert stack'[..|stack'| - 1] == stack;
    if !state.StartState? {
      ValueInside(r, text, state, stack, i, events);
    }
    OpensContainer(r, text, i, events);
    var inside := if Peek(text, i) == LEFT_CURLY then ObjectInitialState else ArrayInitialState;
    hide ValueAt, Innermost;
    match Report(r, events, if Peek(text, i) == LEFT_CURLY then StartObject else StartArray, i + 1)
    case Broken(evs) =>
    case Done(j, evs) =>
      match Skip(r, text, j, evs)
      case Broken(evs') =>
      case Done(k, evs') =>
        assert Remaining(r, text, inside, stack', k, evs') == Unwind(r, text, Innermost(r, text, inside, 0, k, evs'), stack');
  }

  lemma OpensContainer(r: Reader, text: Text, i: nat, events: seq<Event>)
    requires Sound(r) && i < |text| && (Peek(text, i) == LEFT_CURLY || Peek(text, i) == LEFT_BRACKET)
    ensures var curly := Peek(text, i) == LEFT_CURLY;
            ValueAt(r, text, i, events) ==
            match SkipAfter(r, text, Report(r, events, if curly then StartObject else StartArray, i + 1))
            case Broken(evs) => Broken(evs)
            case Done(j, evs) => Innermost(r, text, if curly then ObjectInitialState else ArrayInitialState, 0, j, evs)
  {
  }

  lemma KeyEntry(r: Reader, text: Text, state: ParsingState, stack: seq<Frame>, i: nat, events: seq<Event>)
    requires Sound(r) && Nested(stack) && Matching(state, stack) && i < |text| && Peek(text, i) == QUOTE
    requires state.ObjectInitialState? || state.MemberDelimiterState?
    ensures Remaining(r, text, state, stack, i, events) ==
            match Lex(r, events, r.key(text, i))
            case Broken(evs) => Rejected(evs)
            case Done(j, evs) => Onward(r, text, MemberKeyState, stack, j, evs)
  {
    var count := stack[|stack| - 1].count;
    assert Innermost(r, text, state, count, i, events) == MemberAt(r, text, i, events, count);
    hide Innermost, ColonAt;
    match Lex(r, events, r.key(text, i))
    case Broken(evs) => UnwindBroken(r, text, evs, stack);
    case Done(j, evs) =>
      assert Innermost(r, text, MemberKeyState, count, j, evs) == ColonAt(r, text, j, evs, count) by {
        KeyState(r, text, count, j, evs);
      }
      match Skip(r, text, j, evs)
      case Broken(evs') => UnwindBroken(r, text, evs', stack);
      case Done(k, evs') => KeyState(r, text, count, k, evs');
  }

  lemma KeyState(r: Reader, text: Text, count: nat, i: nat, events: seq<Event>)
    requires Sound(r) && i <= |text|
    ensures Innermost(r, text, MemberKeyState, count, i, events) == ColonAt(r, text, i, events, count)
  {
    hide ColonAt;
  }

  predicate Delimits(state: ParsingState, c: nat) {
    (state.MemberKeyState? && c == COLON) || ((state.MemberValueState? || state.ElementState?) && c == COMMA)
  }

  function Delimited(state: ParsingState): ParsingState {
    if state.MemberKeyState? then KeyValueDelimiterState
    else if state.MemberValueState? then MemberDelimiterState else ElementDelimiterState
  }

  /** A comma or a colon: the comma also counts. */
  lemma DelimiterEntry(r: Reader, text: Text, state: ParsingState, stack: seq<Frame>, i: nat, events: seq<Event>, count: nat)
    requires Sound(r) && Nested(stack) && Matching(state, stack) && i < |text| && Delimits(state, Peek(text, i))
    requires count == stack[|stack| - 1].count + if state.MemberKeyState? then 0 else 1
    ensures var stack' := stack[|stack| - 1 := stack[|stack| - 1].(count := count)];
            Nested(stack') && Remaining(r, text, state, stack, i, events) == Onward(r, text, Delimited(state), stack', i + 1, events)
  {
    var stack' := stack[|stack| - 1 := stack[|stack| - 1].(count := count)];
    DelimitedContainer(r, text, state, stack[|stack| - 1].count, i, events, count);
    hide Innermost;
    match Skip(r, text, i + 1, events)
    case Broken(evs) => UnwindBroken(r, text, evs, stack);
    case Done(j, evs) => SameUnwind(r, text, Innermost(r, text, Delimited(state), count, j, evs), stack, count);
  }

  lemma DelimitedContainer(r: Reader, text: Text, state: ParsingState, before: nat, i: nat, events: seq<Event>, count: nat)
    requires Sound(r) && i < |text| && Delimits(state, Peek(text, i))
    requires count == before + if state.MemberKeyState? then 0 else 1
    ensures Innermost(r, text, state, before, i, events) ==
            match Skip(r, text, i + 1, events)
            case Broken(evs) => Broken(evs)
            case Done(j, evs) => Innermost(r, text, Delimited(state), count, j, evs)
  {
    hide AfterElementComma, AfterMemberComma, MemberValueAt;
  }

  /** The count of the top frame plays no part in what follows its container. */
  lemma SameUnwind(r: Reader, text: Text, o: Outcome, stack: seq<Frame>, count: nat)
    requires Sound(r) && stack != [] && Nested(stack) && (o.Done? ==> o.next <= |text|)
    ensures var stack' := stack[|stack| - 1 := stack[|stack| - 1].(count := count)];
            Nested(stack') && Unwind(r, text, o, stack') == Unwind(r, text, o, stack)
  {
    var stack' := stack[|stack| - 1 := stack[|stack| - 1].(count := count)];
    assert stack'[..|stack'| - 1] == stack[..|stack| - 1];
  }

  predicate Closes(state: ParsingState, c: nat) {
    (c == RIGHT_CURLY && (state.ObjectInitialState? || state.MemberValueState? || state.MemberDelimiterState?))
    || (c == RIGHT_BRACKET && (state.ArrayInitialState? || state.ElementState? || state.ElementDelimiterState?))
  }

  /** The last member or element counts when no comma follows it. */
  function FinalCount(state: ParsingState, count: nat): nat {
    if state.MemberValueState? || state.ElementState? then count + 1 else count
  }

  function Closing(state: ParsingState, count: nat): Event {
    if state.ObjectInitialState? || state.MemberValueState? || state.MemberDelimiterState? then EndObject(FinalCount(state, count))
    else EndArray(FinalCount(state, count))
  }

  predicate TrailingComma(state: ParsingState) {
    state.MemberDelimiterState? || state.ElementDelimiterState?
  }

  lemma ClosedContainer(r: Reader, text: Text, state: ParsingState, count: nat, i: nat, events: seq<Event>)
    requires Sound(r) && i < |text| && Closes(state, Peek(text, i))
    requires state.ObjectInitialState? || state.ArrayInitialState? ==> count == 0
    ensures Innermost(r, text, state, count, i, events) ==
            if TrailingComma(state) && !r.trailingCommas then Broken(events) else Report(r, events, Closing(state, count), i + 1)
  {
    if TrailingComma(state) && !r.trailingCommas {
      NoValue(r, text, i, events, count);
      assert MemberAt(r, text, i, events, count) == Broken(events);
      hide MemberAt, ElementAt;
    }
  }

  /** A closing bracket: the end event carries the number of children, and the frame says where to go on. */
  lemma CloseEntry(r: Reader, text: Text, state: ParsingState, stack: seq<Frame>, i: nat, events: seq<Event>)
    requires Sound(r) && Nested(stack) && Matching(state, stack) && i < |text| && Closes(state, Peek(text, i))
    ensures var top, outer := stack[|stack| - 1], stack[..|stack| - 1];
            var e := Closing(state, top.count);
            var n := if top.resume.StartState? then FinishState else top.resume;
            && Nested(outer) && Matching(n, outer)
            && Remaining(r, text, state, stack, i, events) ==
               if TrailingComma(state) && !r.trailingCommas then Rejected(events)
               else if r.accepts(events, e) then Onward(r, text, n, outer, i + 1, events + [e])
               else Rejected(events + [e])
  {
    var top, outer := stack[|stack| - 1], stack[..|stack| - 1];
    ClosedContainer(r, text, state, top.count, i, events);
    hide Innermost;
    if TrailingComma(state) && !r.trailingCommas {
      UnwindBroken(r, text, events, stack);
    } else {
      match Report(r, events, Closing(state, top.count), i + 1)
      case Broken(evs) => UnwindBroken(r, text, evs, stack);
      case Done(j, evs) =>
    }
  }

  /** After a comma there is another member or element, or a trailing comma's closing bracket. */
  lemma CommaIs(r: Reader, text: Text, i: nat, events: seq<Event>, count: nat)
    requires Sound(r) && i <= |text|
    ensures AfterMemberComma(r, text, i, events, count) ==
            if r.trailingCommas && Peek(text, i) == RIGHT_CURLY then Report(r, events, EndObject(count), i + 1)
            else MemberAt(r, text, i, events, count)
    ensures AfterElementComma(r, text, i, events, count) ==
            if r.trailingCommas && Peek(text, i) == RIGHT_BRACKET then Report(r, events, EndArray(count), i + 1)
            else ElementAt(r, text, i, events, count)
  {
  }

  // ----- The reader -----

  class GenericReader {
    const r: Reader
    const text: Text
    /** Position in the stream, events the handler has had, and whether an error is set. */
    var pos: nat
    var events: seq<Event>
    var failed: bool
    var stack: seq<Frame>

    ghost predicate Ready()
      reads this
    {
      Sound(r) && pos <= |text| && !failed
    }

    /** The fields as an outcome. */
    ghost predicate Reached(o: Outcome)
      reads this
    {
      match o
      case Done(j, evs) => !failed && pos == j && events == evs
      case Broken(evs) => failed && events == evs
    }

    constructor (r: Reader, text: Text)
      ensures this.r == r && this.text == text && pos == 0 && events == [] && !failed && stack == []
    {
      this.r, this.text := r, text;
      pos, events, failed, stack := 0, [], false, [];
    }

    method SkipWhitespaceAndComments()
      requires Ready()
      modifies this`pos, this`failed
      ensures Reached(Skip(r, text, old(pos), old(events)))
    {
      match r.skip(text, pos)
      case None => failed := true;
      case Some(j) => pos := j;
    }

    /** Gives the handler an event; a refusal ends the parse. */
    method Handle(e: Event)
      modifies this`events, this`failed
      ensures events == old(events) + [e] && (failed <==> old(failed) || !r.accepts(old(events), e))
    {
      if !r.accepts(events, e) {
        failed := true;
      }
      events := events + [e];
    }

    /** ParseString for a member's name. */
    method ParseKey()
      requires Ready()
      modifies this`pos, this`events, this`failed
      ensures Reached(Lex(r, old(events), r.key(text, old(pos))))
    {
      match r.key(text, pos)
      case Malformed => failed := true;
      case Lexed(e, j) =>
        pos := j;
        Handle(e);
    }

    /** ParseNull, ParseTrue, ParseFalse, ParseString or ParseNumber, by the next character. */
    method ParseScalar()
      requires Ready()
      modifies this`pos, this`events, this`failed
      ensures Reached(Lex(r, old(events), r.scalar(text, old(pos))))
    {
      match r.scalar(text, pos)
      case Malformed => failed := true;
      case Lexed(e, j) =>
        pos := j;
        Handle(e);
    }

    method ParseValue()
      requires Ready()
      modifies this`pos, this`events, this`failed
      ensures Reached(ValueAt(r, text, old(pos), old(events)))
      decreases |text| - pos, 2
    {
      var c := Peek(text, pos);
      if c == LEFT_CURLY {
        ParseObject();
      } else if c == LEFT_BRACKET {
        ParseArray();
      } else {
        ParseScalar();
      }
    }

    /** A member: its name, a colon and its value, and the white space around them. */
    method ParseMember(ghost count: nat)
      requires Ready()
      modifies this`pos, this`events, this`failed
      ensures failed ==> MemberAt(r, text, old(pos), old(events), count) == Broken(events)
      ensures !failed ==>
                && old(pos) < pos <= |text|
                && MemberAt(r, text, old(pos), old(events), count) == AfterMember(r, text, pos, events, count)
      decreases |text| - pos, 3
    {
      hide ValueAt, AfterMember;
      if Peek(text, pos) != QUOTE {
        failed := true;
        return;
      }
      ghost var o := MemberAt(r, text, pos, events, count);
      ParseKey();
      if failed {
        return;
      }
      SkipWhitespaceAndComments();
      if failed {
        return;
      }
      assert ColonAt(r, text, pos, events, count) == o;
      if Peek(text, pos) != COLON {
        failed := true;
        return;
      }
      pos := pos + 1;
      SkipWhitespaceAndComments();
      if failed {
        return;
      }
      assert MemberValueAt(r, text, pos, events, count) == o;
      ParseValue();
      if failed {
        return;
      }
      SkipWhitespaceAndComments();
    }

    method ParseObject()
      requires Ready() && Peek(text, pos) == LEFT_CURLY
      modifies this`pos, this`events, this`failed
      ensures Reached(ObjectAt(r, text, old(pos), old(events)))
      decreases |text| - pos, 0
    {
      hide MemberAt, AfterMemberComma;
      ghost var o := ObjectAt(r, text, pos, events);
      pos := pos + 1;
      Handle(StartObject);
      if failed {
        return;
      }
      SkipWhitespaceAndComments();
      if failed {
        return;
      }
      assert ObjectInitial(r, text, pos, events) == o;
      if Peek(text, pos) == RIGHT_CURLY {
        pos := pos + 1;
        Handle(EndObject(0));
        return;
      }
      var memberCount := 0;
      while true
        invariant Ready() && pos > old(pos) && memberCount >= 0
        invariant MemberAt(r, text, pos, events, memberCount) == o
        decreases |text| - pos
      {
        ParseMember(memberCount);
        if failed {
          return;
        }
        memberCount := memberCount + 1;
        if Peek(text, pos) == COMMA {
          pos := pos + 1;
          SkipWhitespaceAndComments();
          if failed {
            return;
          }
          CommaIs(r, text, pos, events, memberCount);
        } else if Peek(text, pos) == RIGHT_CURLY {
          pos := pos + 1;
          Handle(EndObject(memberCount));
          return;
        } else {
          failed := true;
          return;
        }
        if r.trailingCommas && Peek(text, pos) == RIGHT_CURLY {
          Handle(EndObject(memberCount));
          pos := pos + 1;
          return;
        }
      }
    }

    /** An element and the white space behind it. */
    method ParseElement(ghost count: nat)
      requires Ready()
      modifies this`pos, this`events, this`failed
      ensures failed ==> ElementAt(r, text, old(pos), old(events), count) == Broken(events)
      ensures !failed ==>
                && old(pos) < pos <= |text|
                && ElementAt(r, text, old(pos), old(events), count) == AfterElement(r, text, pos, events, count)
      decreases |text| - pos, 3
    {
      hide ValueAt, AfterElement;
      ParseValue();
      if failed {
        return;
      }
      SkipWhitespaceAndComments();
    }

    method ParseArray()
      requires Ready() && Peek(text, pos) == LEFT_BRACKET
      modifies this`pos, this`events, this`failed
      ensures Reached(ArrayAt(r, text, old(pos), old(events)))
      decreases |text| - pos, 0
    {
      hide ElementAt, AfterElementComma;
      ghost var o := ArrayAt(r, text, pos, events);
      pos := pos + 1;
      Handle(StartArray);
      if failed {
        return;
      }
      SkipWhitespaceAndComments();
      if failed {
        return;
      }
      assert ArrayInitial(r, text, pos, events) == o;
      if Peek(text, pos) == RIGHT_BRACKET {
        pos := pos + 1;
        Handle(EndArray(0));
        return;
      }
      var elementCount := 0;
      while true
        invariant Ready() && pos > old(pos) && elementCount >= 0
        invariant ElementAt(r, text, pos, events, elementCount) == o
        decreases |text| - pos
      {
        ParseElement(elementCount);
        if failed {
          return;
        }
        elementCount := elementCount + 1;
        if Peek(text, pos) == COMMA {
          pos := pos + 1;
          SkipWhitespaceAndComments();
          if failed {
            return;
          }
          CommaIs(r, text, pos, events, elementCount);
        } else if Peek(text, pos) == RIGHT_BRACKET {
          pos := pos + 1;
          Handle(EndArray(elementCount));
          return;
        } else {
          failed := true;
          return;
        }
        if r.trailingCommas && Peek(text, pos) == RIGHT_BRACKET {
          Handle(EndArray(elementCount));
          pos := pos + 1;
          return;
        }
      }
    }

    /** What a finished parse says. */
    ghost predicate Reports(res: Result)
      reads this
    {
      match res
      case Accepted(j, evs) => !failed && pos == j && events == evs
      case Rejected(evs) => failed && events == evs
    }

    /** Recursive descent. */
    method Parse()
      requires Sound(r) && pos == 0 && events == [] && !failed
      modifies this`pos, this`events, this`failed
      ensures Reports(Document(r, text))
    {
      SkipWhitespaceAndComments();
      if failed {
        return;
      }
      if Peek(text, pos) == 0 {
        failed := true;
        return;
      }
      ParseValue();
      if failed {
        return;
      }
      if !r.stopWhenDone {
        SkipWhitespaceAndComments();
        if failed {
          return;
        }
        if Peek(text, pos) != 0 {
          failed := true;
        }
      }
    }

    /** What is left to do, as recursive descent would do it, after a transition to `d`. */
    ghost function Ahead(d: ParsingState): Result
      requires Sound(r) && pos <= |text| && Nested(stack) && Matching(d, stack)
      reads this
    {
      Onward(r, text, d, stack, pos, events)
    }

    /** A transition either breaks off as recursive descent would, or leaves as much to do as it would. */
    ghost predicate Transited(d: ParsingState, before: Result)
      reads this
    {
      && (failed <==> d.ErrorState?)
      && (failed ==> before == Rejected(events))
      && (!failed ==> Sound(r) && pos <= |text| && Nested(stack) && Matching(d, stack) && Ahead(d) == before)
    }

    /** Pushes the state to return to and a count of zero. */
    method Open(src: ParsingState, e: Event, dst: ParsingState) returns (d: ParsingState)
      requires Ready() && Nested(stack) && Matching(src, stack) && pos < |text| && ValueExpected(src)
      requires (Peek(text, pos) == LEFT_CURLY && e == StartObject && dst == ObjectInitialState)
            || (Peek(text, pos) == LEFT_BRACKET && e == StartArray && dst == ArrayInitialState)
      modifies this`pos, this`events, this`failed, this`stack
      ensures Transited(d, old(Remaining(r, text, src, stack, pos, events)))
      ensures !failed ==> pos > old(pos)
    {
      hide Remaining, Onward;
      Opens(r, text, src, stack, pos, events);
      stack := stack + [Frame(ReturnState(src), 0)];
      Handle(e);
      if failed {
        return ErrorState;
      }
      pos := pos + 1;
      return dst;
    }

    /** Counts one more member or element. */
    method Count(src: ParsingState, dst: ParsingState) returns (d: ParsingState)
      requires Ready() && Nested(stack) && Matching(src, stack) && pos < |text|
      requires (src.MemberValueState? || src.ElementState?) && Peek(text, pos) == COMMA && dst == Delimited(src)
      modifies this`pos, this`stack
      ensures Transited(d, old(Remaining(r, text, src, stack, pos, events)))
      ensures pos > old(pos)
    {
      hide Remaining, Onward;
      DelimiterEntry(r, text, src, stack, pos, events, stack[|stack| - 1].count + 1);
      pos := pos + 1;
      stack := stack[|stack| - 1 := stack[|stack| - 1].(count := stack[|stack| - 1].count + 1)];
      return dst;
    }

    /** Pops the count and the state to return to; a trailing comma must be allowed. */
    method Close(src: ParsingState) returns (d: ParsingState)
      requires Ready() && Nested(stack) && Matching(src, stack) && pos < |text| && Closes(src, Peek(text, pos))
      modifies this`pos, this`events, this`failed, this`stack
      ensures Transited(d, old(Remaining(r, text, src, stack, pos, events)))
      ensures !failed ==> pos > old(pos)
    {
      hide Remaining, Onward;
      CloseEntry(r, text, src, stack, pos, events);
      if TrailingComma(src) && !r.trailingCommas {
        failed := true;
        return ErrorState;
      }
      var c := stack[|stack| - 1].count;
      if src.MemberValueState? || src.ElementState? {
        c := c + 1;
      }
      var n := stack[|stack| - 1].resume;
      stack := stack[..|stack| - 1];
      if n.StartState? {
        n := FinishState;
      }
      Handle(if Peek(text, pos) == RIGHT_CURLY then EndObject(c) else EndArray(c));
      if failed {
        return ErrorState;
      }
      pos := pos + 1;
      return n;
    }

    method Transit(src: ParsingState, token: Token, dst: ParsingState) returns (d: ParsingState)
      requires Ready() && Nested(stack) && Matching(src, stack) && pos < |text| && Peek(text, pos) != 0
      requires token == Tokenize(Peek(text, pos)) && dst == Predict(src, token)
      modifies this`pos, this`events, this`failed, this`stack
      ensures Transited(d, old(Remaining(r, text, src, stack, pos, events)))
      ensures !failed ==> pos > old(pos)
    {
      hide Remaining, Onward;
      if dst.ErrorState? {
        ErrorEntry(r, text, src, stack, pos, events);
        failed := true;
        d := ErrorState;
      } else if dst.ObjectInitialState? {
        d := Open(src, StartObject, dst);
      } else if dst.ArrayInitialState? {
        d := Open(src, StartArray, dst);
      } else if dst.MemberKeyState? {
        KeyEntry(r, text, src, stack, pos, events);
        ParseKey();
        d := if failed then ErrorState else dst;
      } else if dst.KeyValueDelimiterState? {
        DelimiterEntry(r, text, src, stack, pos, events, stack[|stack| - 1].count);
        assert stack[|stack| - 1 := stack[|stack| - 1]] == stack;
        pos := pos + 1;
        d := dst;
      } else if dst.MemberValueState? || dst.ElementState? {
        ValueInside(r, text, src, stack, pos, events);
        ParseValue();
        d := if failed then ErrorState else dst;
      } else if dst.MemberDelimiterState? || dst.ElementDelimiterState? {
        d := Count(src, dst);
      } else if dst.ObjectFinishState? || dst.ArrayFinishState? {
        d := Close(src);
      } else {
        RootScalar(r, text, stack, pos, events);
        ParseValue();
        d := if failed then ErrorState else FinishState;
      }
    }

    /** The table-driven parser: the same answer, the same events and the same place as recursive descent. */
    method IterativeParse()
      requires Sound(r) && pos == 0 && events == [] && !failed && stack == []
      modifies this`pos, this`events, this`failed, this`stack
      ensures Reports(Document(r, text))
    {
      hide Remaining, Onward, Predict, Tokenize, RootAt;
      var state := StartState;
      SkipWhitespaceAndComments();
      if failed {
        return;
      }
      StartIsRoot(r, text, stack, pos, events);
      while Peek(text, pos) != 0
        invariant Ready() && Nested(stack) && Matching(state, stack)
        invariant Remaining(r, text, state, stack, pos, events) == Document(r, text)
        decreases |text| - pos
      {
        var t := Tokenize(Peek(text, pos));
        var n := Predict(state, t);
        var d := Transit(state, t, n);
        if d.ErrorState? {
          return;
        }
        state := d;
        OnwardIs(r, text, state, stack, pos, events);
        if r.stopWhenDone && state.FinishState? {
          return;
        }
        SkipWhitespaceAndComments();
        if failed {
          return;
        }
      }
      AtEnd(r, text, state, stack, pos, events);
      if !state.FinishState? {
        failed := true;
      }
    }
  }

  lemma StartIsRoot(r: Reader, text: Text, stack: seq<Frame>, i: nat, events: seq<Event>)
    requires Sound(r) && stack == [] && i <= |text|
    ensures Remaining(r, text, StartState, stack, i, events) == RootAt(r, text, i, events)
  {
  }

  /** Skipping white space after a transition leads to the head of the loop. */
  lemma OnwardIs(r: Reader, text: Text, state: ParsingState, stack: seq<Frame>, i: nat, events: seq<Event>)
    requires Sound(r) && Nested(stack) && Matching(state, stack) && i <= |text|
    ensures Onward(r, text, state, stack, i, events) ==
            if state.FinishState? && r.stopWhenDone then Accepted(i, events)
            else
              match Skip(r, text, i, events)
              case Broken(evs) => Rejected(evs)
              case Done(j, evs) => Remaining(r, text, state, stack, j, evs)
  {
    hide Unwind;
  }

  lemma RootScalar(r: Reader, text: Text, stack: seq<Frame>, i: nat, events: seq<Event>)
    requires Sound(r) && stack == [] && i < |text| && Peek(text, i) != 0
    ensures Remaining(r, text, StartState, stack, i, events) ==
            match ValueAt(r, text, i, events)
            case Broken(evs) => Rejected(evs)
            case Done(j, evs) => Onward(r, text, FinishState, stack, j, evs)
  {
  }

  /** On every text, with every handler and every flag, the two parsers accept alike, report alike and stop alike. */
  method ParseBothWays(r: Reader, text: Text) returns (recursive: GenericReader, iterative: GenericReader)
    requires Sound(r)
    ensures recursive.failed == iterative.failed && recursive.events == iterative.events
    ensures !recursive.failed ==> recursive.pos == iterative.pos
  {
    recursive := new GenericReader(r, text);
    recursive.Parse();
    iterative := new GenericReader(r, text);
    iterative.IterativeParse();
  }
}
