/** Which texts the pattern reader accepts: lexed into signs, and built from them by the grammar of patterns. */
module RegexAccepted {
  import opened Options
  import opened Texts
  import opened RegexLanguage
  import opened RegexPattern
  import opened RegexSyntax
  import opened RegexMeanings

  datatype Sign =
    | Begin
    | End
    | Bar
    | Open
    | Close
    | Operand(a: AtomText)
    | Times(q: QuantifierText)

  function SignText(t: Sign): Text {
    match t
    case Begin => ['^' as nat]
    case End => ['$' as nat]
    case Bar => ['|' as nat]
    case Open => ['(' as nat]
    case Close => [')' as nat]
    case Operand(a) => AtomTextOf(a)
    case Times(q) => QuantifierTextOf(q)
  }

  function SignsText(ts: seq<Sign>): Text {
    if ts == [] then [] else SignText(ts[0]) + SignsText(ts[1..])
  }

  predicate DigitsWritten(t: Text) {
    t != [] && forall k :: 0 <= k < |t| ==> 0x30 <= t[k] <= 0x39
  }

  predicate SignWritten(t: Sign) {
    match t
    case Operand(a) => AtomWritten(a)
    case Times(Exactly(n)) => DigitsWritten(n)
    case Times(NOrMore(n)) => DigitsWritten(n)
    case Times(NToM(n, m)) => DigitsWritten(n) && DigitsWritten(m)
    case _ => true
  }

  predicate AllWritten(ts: seq<Sign>) {
    forall k :: 0 <= k < |ts| ==> SignWritten(ts[k])
  }

  /** Its numbers are below 2^32. */
  predicate SignFits(t: Sign) {
    match t
    case Times(Exactly(n)) => Number(n) < 0x1_0000_0000
    case Times(NOrMore(n)) => Number(n) < 0x1_0000_0000
    case Times(NToM(n, m)) => Number(n) < 0x1_0000_0000 && Number(m) < 0x1_0000_0000
    case _ => true
  }

  predicate AllFit(ts: seq<Sign>) {
    forall k :: 0 <= k < |ts| ==> SignFits(ts[k])
  }

  /** The signs of a pattern, in the order they are written. */
  function SignsOf(p: Pattern): seq<Sign> {
    match p
    case Atomic(a) => [Operand(a)]
    case Group(b) => [Open] + SignsOf(b) + [Close]
    case Quantified(b, q) => SignsOf(b) + [Times(q)]
    case Sequence(a, r) => SignsOf(a) + SignsOf(r)
    case Choice(a, r) => SignsOf(a) + [Bar] + SignsOf(r)
  }

  /** The signs other than the anchors. */
  function Bare(ts: seq<Sign>): seq<Sign> {
    if ts == [] then [] else if ts[0].Begin? || ts[0].End? then Bare(ts[1..]) else [ts[0]] + Bare(ts[1..])
  }

  /** No quantifier comes first in the pattern, in a group or in an alternative. */
  predicate InPlace(ts: seq<Sign>) {
    forall k :: 0 <= k < |ts| && ts[k].Times? ==> k > 0 && !ts[k - 1].Open? && !ts[k - 1].Bar?
  }

  /** The pattern is what is written, wherever the anchors stand. */
  predicate Spells(ts: seq<Sign>, p: Pattern) {
    Written(p) && SignsOf(p) == Bare(ts)
  }

  // ----- Every accepted text can be cut into signs -----

  lemma CharBack(text: Text, i: nat) returns (ch: BracketChar)
    requires i < |text| && text[i] != ']' as nat && ClassChar(text, i).Some?
    ensures ClassCharWritten(ch) && At(text, i, CharText(ch))
    ensures ClassChar(text, i) == Some((CharOf(ch), i + |CharText(ch)|))
    ensures CharOf(ch) == '-' as nat <==> ch == RawChar('-' as nat)
    ensures ch == RawChar('-' as nat) <==> text[i] == '-' as nat
    ensures ch == RawChar('^' as nat) <==> text[i] == '^' as nat
  {
    if text[i] != '\\' as nat {
      ch := RawChar(text[i]);
    } else if Peek(text, i + 1) == 'b' as nat {
      ch := Backspace;
    } else {
      ch := EscapedChar(text[i + 1]);
      EscapeIs(text[i + 1]);
    }
  }

  lemma ItemsCons(item: Item, items: seq<Item>, dash: bool, afterOne: bool)
    requires ItemWritten(item) && ItemsWritten(items, dash, item.One?) && (afterOne ==> StartOf(item) != RawChar('-' as nat))
    ensures ItemsWritten([item] + items, dash, afterOne)
    ensures ClassBody([item] + items, dash) == ItemText(item) + ClassBody(items, dash)
  {
    hide ItemWritten, ItemText;
    var all := [item] + items;
    assert all[1..] == items;
    assert forall k :: 0 < k < |all| ==> all[k] == items[k - 1];
    forall k | 0 < k < |all| && StartOf(all[k]) == RawChar('-' as nat) ensures all[k - 1].Span? {
      if k > 1 {
        assert StartOf(items[k - 1]) == RawChar('-' as nat);
      }
    }
  }

  /** One character, or a range with what is behind its '-'. */
  lemma {:induction false} ScanBack(text: Text, i: nat, negate: bool, step: nat, rs: seq<Range>) returns (items: seq<Item>, dash: bool)
    requires step <= 1 && (step > 0 ==> rs != [] && Peek(text, i) != '-' as nat)
    requires ScanClass(text, i, false, negate, step, rs).Some?
    ensures ItemsWritten(items, dash, step == 1) && At(text, i, ClassBody(items, dash)) && (rs == [] ==> items != [])
    ensures ScanClass(text, i, false, negate, step, rs).value.1 == i + |ClassBody(items, dash)|
    decreases |text| - i
  {
    hide At, ClassChar, CharOf, ClassCharWritten, CharText, ClassBody;
    NoBody();
    AtOne(text, i);
    if text[i] == ']' as nat {
      items, dash := [], false;
    } else {
      var ch := CharBack(text, i);
      var j := i + |CharText(ch)|;
      var rs1 := rs + [Range(CharOf(ch), CharOf(ch))];
      if Peek(text, j) == '-' as nat {
        items, dash := ScanDash(text, i, negate, step == 1, ch, rs1);
      } else {
        var rest;
        rest, dash := ScanBack(text, j, negate, 1, rs1);
        items := [One(ch)] + rest;
        ItemsCons(One(ch), rest, dash, step == 1);
        AtJoin(text, i, CharText(ch), ClassBody(rest, dash));
      }
    }
  }

  lemma NoBody()
    ensures ClassBody([], false) == [']' as nat] && ClassBody([], true) == ['-' as nat] + [']' as nat]
  {
  }

  lemma DashIsRaw(text: Text, j: nat)
    requires Peek(text, j) == '-' as nat
    ensures j < |text| && ClassChar(text, j) == Some(('-' as nat, j + 1))
  {
  }

  lemma {:induction false} ScanDash(text: Text, i: nat, negate: bool, afterOne: bool, ch: BracketChar, rs: seq<Range>)
    returns (items: seq<Item>, dash: bool)
    requires ClassCharWritten(ch) && At(text, i, CharText(ch)) && (afterOne ==> ch != RawChar('-' as nat)) && rs != []
    requires CharText(ch) != [] && Peek(text, i + |CharText(ch)|) == '-' as nat
    requires ScanClass(text, i + |CharText(ch)|, false, negate, 1, rs).Some?
    ensures ItemsWritten(items, dash, afterOne) && At(text, i, ClassBody(items, dash)) && items != []
    ensures ScanClass(text, i + |CharText(ch)|, false, negate, 1, rs).value.1 == i + |ClassBody(items, dash)|
    decreases |text| - i, 0
  {
    hide At, ClassChar, CharOf, ClassCharWritten, CharText, ClassBody;
    NoBody();
    var j := i + |CharText(ch)|;
    DashIsRaw(text, j);
    AtOne(text, j);
    AtFits(text, i, CharText(ch));
    assert ScanClass(text, j, false, negate, 1, rs) == ScanClass(text, j + 1, false, negate, 2, rs);
    AtOne(text, j + 1);
    if text[j + 1] == ']' as nat {
      items, dash := [One(ch)], true;
      DashAtEnd(text, i, ch, afterOne);
    } else {
      var b := CharBack(text, j + 1);
      var k := j + 1 + |CharText(b)|;
      var rs' := rs[|rs| - 1 := rs[|rs| - 1].(hi := CharOf(b))];
      var rest;
      rest, dash := ScanBack(text, k, negate, 0, rs');
      items := [Span(ch, b)] + rest;
      SpanFirst(text, i, ch, b, rest, dash, afterOne);
    }
  }

  lemma DashAtEnd(text: Text, i: nat, ch: BracketChar, afterOne: bool)
    requires ClassCharWritten(ch) && At(text, i, CharText(ch)) && (afterOne ==> ch != RawChar('-' as nat))
    requires At(text, i + |CharText(ch)|, ['-' as nat]) && At(text, i + |CharText(ch)| + 1, [']' as nat])
    ensures ItemsWritten([One(ch)], true, afterOne) && At(text, i, ClassBody([One(ch)], true))
    ensures |ClassBody([One(ch)], true)| == |CharText(ch)| + 2
  {
    hide At, ClassCharWritten, CharText, ClassBody;
    NoBody();
    AtJoin(text, i + |CharText(ch)|, ['-' as nat], [']' as nat]);
    ItemsCons(One(ch), [], true, afterOne);
    assert [One(ch)] == [One(ch)] + [];
    AtJoin(text, i, CharText(ch), ClassBody([], true));
  }

  lemma SpanFirst(text: Text, i: nat, a: BracketChar, b: BracketChar, rest: seq<Item>, dash: bool, afterOne: bool)
    requires ClassCharWritten(a) && ClassCharWritten(b) && (afterOne ==> a != RawChar('-' as nat))
    requires At(text, i, CharText(a)) && At(text, i + |CharText(a)|, ['-' as nat]) && At(text, i + |CharText(a)| + 1, CharText(b))
    requires ItemsWritten(rest, dash, false) && At(text, i + |CharText(a)| + 1 + |CharText(b)|, ClassBody(rest, dash))
    ensures ItemsWritten([Span(a, b)] + rest, dash, afterOne) && At(text, i, ClassBody([Span(a, b)] + rest, dash))
    ensures |ClassBody([Span(a, b)] + rest, dash)| == |CharText(a)| + 1 + |CharText(b)| + |ClassBody(rest, dash)|
  {
    hide At, ClassCharWritten, CharText, ClassBody, ItemsWritten;
    ItemsCons(Span(a, b), rest, dash, afterOne);
    AtJoin(text, i + |CharText(a)|, ['-' as nat], CharText(b));
    AtJoin(text, i, CharText(a), ['-' as nat] + CharText(b));
    AtJoin(text, i, CharText(a) + (['-' as nat] + CharText(b)), ClassBody(rest, dash));
  }

  lemma FirstOfBody(text: Text, i: nat, items: seq<Item>, dash: bool)
    requires items != [] && At(text, i, ClassBody(items, dash)) && StartOf(items[0]) == RawChar('^' as nat)
    ensures Peek(text, i) == '^' as nat
  {
    hide At;
    StartsWithFirst(items, dash);
    var body := ClassBody(items, dash);
    assert body == ['^' as nat] + body[1..];
    AtConcat(text, i, ['^' as nat], body[1..]);
    AtChar(text, i, '^' as nat);
  }

  /** A class that was read is written by the rules. */
  lemma ClassBack(text: Text, i: nat) returns (a: AtomText)
    requires i < |text| && text[i] == '[' as nat && ScanClass(text, i + 1, true, false, 0, []).Some?
    ensures a.Bracket? && AtomWritten(a) && At(text, i, AtomTextOf(a))
    ensures ScanClass(text, i + 1, true, false, 0, []).value.1 == i + |AtomTextOf(a)|
  {
    hide At, ClassBody, ItemWritten;
    AtOne(text, i);
    if Peek(text, i + 1) == '^' as nat {
      AtOne(text, i + 1);
      var items, dash := ScanBack(text, i + 2, true, 0, []);
      AtJoin(text, i + 1, ['^' as nat], ClassBody(items, dash));
      AtJoin(text, i, ['[' as nat], ['^' as nat] + ClassBody(items, dash));
      a := Bracket(true, items, dash);
    } else {
      assert ScanClass(text, i + 1, true, false, 0, []) == ScanClass(text, i + 1, false, false, 0, []);
      var items, dash := ScanBack(text, i + 1, false, 0, []);
      AtJoin(text, i, ['[' as nat], ClassBody(items, dash));
      if StartOf(items[0]) == RawChar('^' as nat) {
        FirstOfBody(text, i + 1, items, dash);
      }
      a := Bracket(false, items, dash);
    }
  }

  lemma {:induction false} LoopBack(text: Text, i: nat, r: nat)
    requires r <= INFINITY && UnsignedLoop(text, i, r).Some? && i <= |text|
    ensures var j := UnsignedLoop(text, i, r).value.1;
            i <= j <= |text| && (forall k :: i <= k < j ==> 0x30 <= text[k] <= 0x39)
    decreases |text| - i
  {
    if IsDigit(Peek(text, i)) {
      LoopBack(text, i + 1, (r * 10 + (text[i] - '0' as nat)) % 0x1_0000_0000);
    }
  }

  lemma NumeralBack(text: Text, i: nat) returns (n: Text)
    requires ParseUnsigned(text, i).Some?
    ensures DigitsWritten(n) && At(text, i, n) && ParseUnsigned(text, i).value.1 == i + |n|
  {
    LoopBack(text, i, 0);
    LoopBack(text, i + 1, text[i] - '0' as nat);
    n := text[i..ParseUnsigned(text, i).value.1];
  }

  lemma BraceParts(text: Text, i: nat, cfg: Config)
    requires StepBrace(text, i, cfg).Running?
    ensures ParseUnsigned(text, i).Some?
    ensures var j := ParseUnsigned(text, i).value.1;
            if Peek(text, j) != ',' as nat then Peek(text, j) == '}' as nat && StepBrace(text, i, cfg).i == j + 1
            else if Peek(text, j + 1) == '}' as nat then StepBrace(text, i, cfg).i == j + 2
            else
              && ParseUnsigned(text, j + 1).Some?
              && Peek(text, ParseUnsigned(text, j + 1).value.1) == '}' as nat
              && StepBrace(text, i, cfg).i == ParseUnsigned(text, j + 1).value.1 + 1
  {
    hide ParseUnsigned, EvalQuantifierTrees;
  }

  lemma PeekAt(text: Text, i: nat, c: CodePoint)
    requires Peek(text, i) == c
    ensures At(text, i, [c])
  {
  }

  lemma NOrMoreAt(text: Text, i: nat, n: Text)
    requires At(text, i, ['{' as nat]) && At(text, i + 1, n) && Peek(text, i + 1 + |n|) == ',' as nat
    requires Peek(text, i + 2 + |n|) == '}' as nat
    ensures At(text, i, QuantifierTextOf(NOrMore(n)))
  {
    hide At, Peek;
    var j := i + 1 + |n|;
    PeekAt(text, j, ',' as nat);
    PeekAt(text, j + 1, '}' as nat);
    AtJoin(text, j, [',' as nat], ['}' as nat]);
    AtJoin(text, i + 1, n, [',' as nat] + ['}' as nat]);
    AtJoin(text, i, ['{' as nat], n + ([',' as nat] + ['}' as nat]));
  }

  lemma NToMAt(text: Text, i: nat, n: Text, m: Text)
    requires At(text, i, ['{' as nat]) && At(text, i + 1, n) && Peek(text, i + 1 + |n|) == ',' as nat
    requires At(text, i + 2 + |n|, m) && Peek(text, i + 2 + |n| + |m|) == '}' as nat
    ensures At(text, i, QuantifierTextOf(NToM(n, m)))
  {
    hide At, Peek;
    var j := i + 1 + |n|;
    PeekAt(text, j, ',' as nat);
    PeekAt(text, j + 1 + |m|, '}' as nat);
    AtJoin(text, j + 1, m, ['}' as nat]);
    AtJoin(text, j, [',' as nat], m + ['}' as nat]);
    AtJoin(text, i + 1, n, [',' as nat] + (m + ['}' as nat]));
    AtJoin(text, i, ['{' as nat], n + ([',' as nat] + (m + ['}' as nat])));
  }

  /** What follows a '{' that was read. */
  lemma BraceBack(text: Text, i: nat, cfg: Config) returns (q: QuantifierText)
    requires At(text, i, ['{' as nat]) && StepBrace(text, i + 1, cfg).Running?
    ensures SignWritten(Times(q)) && At(text, i, QuantifierTextOf(q))
    ensures StepBrace(text, i + 1, cfg).i == i + |QuantifierTextOf(q)|
  {
    hide At, ParseUnsigned, DigitsWritten, StepBrace, Peek;
    BraceParts(text, i + 1, cfg);
    var n := NumeralBack(text, i + 1);
    var j := i + 1 + |n|;
    if Peek(text, j) != ',' as nat {
      q := Exactly(n);
      PeekAt(text, j, '}' as nat);
      AtJoin(text, i + 1, n, ['}' as nat]);
      AtJoin(text, i, ['{' as nat], n + ['}' as nat]);
    } else if Peek(text, j + 1) == '}' as nat {
      q := NOrMore(n);
      NOrMoreAt(text, i, n);
    } else {
      var m := NumeralBack(text, j + 1);
      q := NToM(n, m);
      NToMAt(text, i, n, m);
    }
  }

  ghost predicate Cuts(text: Text, i: nat, cfg: Config, t: Sign)
    requires i < |text| && Step(text, i, cfg).Running?
  {
    SignWritten(t) && At(text, i, SignText(t)) && Step(text, i, cfg).i == i + |SignText(t)|
  }

  lemma ClassCut(text: Text, i: nat, cfg: Config) returns (t: Sign)
    requires i < |text| && text[i] == '[' as nat && Step(text, i, cfg).Running?
    ensures Cuts(text, i, cfg, t)
  {
    hide At, ScanClass, PushAtom, AtomWritten, AtomTextOf;
    var a := ClassBack(text, i);
    Moves(i + |AtomTextOf(a)|, cfg);
    t := Operand(a);
  }

  lemma EscapeCut(text: Text, i: nat, cfg: Config) returns (t: Sign)
    requires i < |text| && text[i] == '\\' as nat && Step(text, i, cfg).Running?
    ensures Cuts(text, i, cfg, t)
  {
    hide At, PushAtom, EscapeOf, CharacterEscape;
    EscapeBack(text, i);
    Moves(i + 2, cfg);
    AtOne(text, i);
    AtOne(text, i + 1);
    AtJoin(text, i, ['\\' as nat], [text[i + 1]]);
    t := Operand(Escaped(text[i + 1]));
  }

  lemma BraceCut(text: Text, i: nat, cfg: Config) returns (t: Sign)
    requires i < |text| && text[i] == '{' as nat && Step(text, i, cfg).Running?
    ensures Cuts(text, i, cfg, t)
  {
    hide At, StepBrace, SignWritten, QuantifierTextOf;
    AtOne(text, i);
    var q := BraceBack(text, i, cfg);
    t := Times(q);
  }

  lemma RawCut(text: Text, i: nat, cfg: Config)
    requires i < |text| && Step(text, i, cfg).Running? && AtomWritten(Raw(text[i]))
    ensures Cuts(text, i, cfg, Operand(Raw(text[i])))
  {
    hide At, PushAtom;
    AtOne(text, i);
    Moves(i + 1, cfg);
  }

  lemma SingleCut(text: Text, i: nat, cfg: Config, t: Sign)
    requires i < |text| && Step(text, i, cfg).Running? && SignText(t) == [text[i]] && !t.Operand?
    ensures Cuts(text, i, cfg, t)
  {
    hide At, StepBar, StepClose, Evaluated, EvalTrees;
    AtOne(text, i);
    Moves(i + 1, cfg);
  }

  lemma DotCut(text: Text, i: nat, cfg: Config)
    requires i < |text| && Step(text, i, cfg).Running? && text[i] == '.' as nat
    ensures Cuts(text, i, cfg, Operand(Dot))
  {
    hide At, PushAtom;
    AtOne(text, i);
    Moves(i + 1, cfg);
  }

  /** One turn of the reader takes one sign. */
  lemma StepBack(text: Text, i: nat, cfg: Config) returns (t: Sign)
    requires i < |text| && Step(text, i, cfg).Running?
    ensures Cuts(text, i, cfg, t)
  {
    hide Cuts, Step;
    var c := text[i];
    if c == '[' as nat {
      t := ClassCut(text, i, cfg);
    } else if c == '\\' as nat {
      t := EscapeCut(text, i, cfg);
    } else if c == '{' as nat {
      t := BraceCut(text, i, cfg);
    } else if c == '.' as nat {
      DotCut(text, i, cfg);
      t := Operand(Dot);
    } else if AtomWritten(Raw(c)) {
      RawCut(text, i, cfg);
      t := Operand(Raw(c));
    } else {
      t := if c == '^' as nat then Begin else if c == '$' as nat then End else if c == '|' as nat then Bar
           else if c == '(' as nat then Open else if c == ')' as nat then Close else if c == '?' as nat then Times(Question)
           else if c == '*' as nat then Times(Star) else Times(Plus);
      SingleCut(text, i, cfg, t);
    }
  }

  lemma Moves(i: nat, cfg: Config)
    ensures StepBar(cfg, i).Running? ==> StepBar(cfg, i).i == i
    ensures StepClose(cfg, i).Running? ==> StepClose(cfg, i).i == i
    ensures forall s :: PushAtom(cfg, s, i).Running? ==> PushAtom(cfg, s, i).i == i
    ensures forall ts :: Evaluated(cfg, ts, i).Running? ==> Evaluated(cfg, ts, i).i == i
  {
    hide Reduce;
  }

  lemma EscapeBack(text: Text, i: nat)
    requires CharacterEscape(text, i + 1).Some?
    ensures i + 1 < |text| && EscapeOf(text[i + 1]).Some? && CharacterEscape(text, i + 1).value.1 == i + 2
  {
  }

  lemma {:induction false} RunBack(text: Text, i: nat, cfg: Config) returns (ts: seq<Sign>)
    requires i <= |text| && Run(text, i, cfg).Compiled?
    ensures AllWritten(ts) && text[i..] == SignsText(ts)
    decreases |text| - i
  {
    hide Step, SignText, SignWritten, Finish;
    if i == |text| {
      ts := [];
    } else {
      StepsNeverCompile(text, i, cfg);
      var t := StepBack(text, i, cfg);
      var j := i + |SignText(t)|;
      AtFits(text, i, SignText(t));
      var rest := RunBack(text, j, Step(text, i, cfg).cfg);
      ts := [t] + rest;
      assert ts[1..] == rest;
      assert text[i..] == text[i..j] + text[j..];
    }
  }

  lemma StepsNeverCompile(text: Text, i: nat, cfg: Config)
    requires i < |text|
    ensures Step(text, i, cfg).Halted? ==> !Step(text, i, cfg).outcome.Compiled?
  {
    hide Reduce, ScanClass, ParseUnsigned, CharacterEscape, EvalTrees, EvalQuantifierTrees;
    ReduceNeverCompiles(cfg.trees, cfg.ops, AtAlternation);
    ReduceNeverCompiles(cfg.trees, cfg.ops, AtParenthesis);
  }

  lemma {:induction false} ReduceNeverCompiles(ts: seq<Regex>, ops: seq<Operator>, stop: Stop)
    ensures Reduce(ts, ops, stop).Stopped? ==> !Reduce(ts, ops, stop).outcome.Compiled?
    decreases |ops|
  {
    hide EvalTrees;
    var n := |ops|;
    if n > 0 && Pops(stop, ops[n - 1]) && EvalTrees(ts, ops[n - 1]).Trees? {
      ReduceNeverCompiles(EvalTrees(ts, ops[n - 1]).ts, ops[..n - 1], stop);
    }
  }

  /** A text that is accepted is a row of well-written signs. */
  lemma AcceptedIsLexed(text: Text)
    requires Read(text).Compiled?
    ensures exists ts :: AllWritten(ts) && text == SignsText(ts)
  {
    hide SignsText, Run;
    var ts := RunBack(text, 0, START);
    assert text[0..] == text;
  }

  // ----- The reader on signs -----

  function Goes(p: Progress): Option<Config> {
    if p.Running? then Some(p.cfg) else None
  }

  /** What one sign does to the stacks; nothing when the reader stops at it. */
  function Taken(cfg: Config, t: Sign): Option<Config> {
    match t
    case Begin => Some(cfg.(anchorBegin := true))
    case End => Some(cfg.(anchorEnd := true))
    case Bar => Goes(StepBar(cfg, 0))
    case Open => Some(Opened(cfg))
    case Close => Goes(StepClose(cfg, 0))
    case Operand(a) => Goes(PushAtom(cfg, SymbolOf(a), 0))
    case Times(q) =>
      if cfg.trees == [] || !QuantifierWritten(q) then None else Some(Requantified(cfg, QuantifierMeaning(q)))
  }

  function AllTaken(cfg: Config, ts: seq<Sign>): Option<Config>
    decreases |ts|
  {
    if ts == [] then Some(cfg)
    else
      match Taken(cfg, ts[0])
      case None => None
      case Some(cfg') => AllTaken(cfg', ts[1..])
  }

  ghost predicate Takes(text: Text, i: nat, cfg: Config, t: Sign)
    requires i < |text|
  {
    match Taken(cfg, t)
    case None => Step(text, i, cfg).Halted?
    case Some(cfg') => Step(text, i, cfg) == Running(i + |SignText(t)|, cfg')
  }

  lemma FittingNumber(n: Text)
    requires DigitsWritten(n)
    ensures n != [] && AllDigits(n) && NumeralFrom(0, n) == Number(n) && (NumberWritten(n) <==> Number(n) < 0x1_0000_0000)
  {
    NumberIs(n);
  }

  lemma EndsBrace(text: Text, i: nat, cfg: Config, n: nat, m: nat, q: QuantifierText)
    requires n <= m && At(text, i, ['}' as nat])
    requires QuantifierWritten(q) <==> !(n == 0 && m == 0)
    requires QuantifierMeaning(q) == QuantifierOf(n, m)
    ensures Taken(cfg, Times(q)) == Goes(StepBraceEnd(text, i, cfg, n, m))
    ensures StepBraceEnd(text, i, cfg, n, m).Running? ==> StepBraceEnd(text, i, cfg, n, m).i == i + 1
  {
    hide QuantifierWritten, QuantifierMeaning, QuantifierOf;
    AtChar(text, i, '}' as nat);
  }

  ghost predicate SameBrace(text: Text, i: nat, cfg: Config, q: QuantifierText) {
    && Taken(cfg, Times(q)) == Goes(StepBrace(text, i, cfg))
    && (StepBrace(text, i, cfg).Running? ==> StepBrace(text, i, cfg).i == i - 1 + |QuantifierTextOf(q)|)
  }

  lemma ExactlySame(text: Text, i: nat, cfg: Config, n: Text)
    requires At(text, i, n + ['}' as nat]) && DigitsWritten(n) && Number(n) < 0x1_0000_0000
    ensures SameBrace(text, i, cfg, Exactly(n))
  {
    hide At, Number, NumeralFrom, DigitsWritten, StepBraceEnd, ParseUnsigned, Taken, NumberWritten, AllDigits, IsDigit, Goes;
    BraceIsNoDigit();
    AtConcat(text, i, n, ['}' as nat]);
    AtChar(text, i + |n|, '}' as nat);
    FittingNumber(n);
    ReadUnsigned(text, i, n);
    EndsBrace(text, i + |n|, cfg, Number(n), Number(n), Exactly(n));
  }

  lemma NOrMoreSame(text: Text, i: nat, cfg: Config, n: Text)
    requires At(text, i, n + ([',' as nat] + ['}' as nat])) && DigitsWritten(n) && Number(n) < 0x1_0000_0000
    ensures SameBrace(text, i, cfg, NOrMore(n))
  {
    hide At, Number, NumeralFrom, DigitsWritten, StepBraceEnd, ParseUnsigned, Taken, NumberWritten, AllDigits, IsDigit, Goes;
    BraceIsNoDigit();
    AtConcat(text, i, n, [',' as nat] + ['}' as nat]);
    var j := i + |n|;
    AtConcat(text, j, [',' as nat], ['}' as nat]);
    AtChar(text, j, ',' as nat);
    AtChar(text, j + 1, '}' as nat);
    FittingNumber(n);
    ReadUnsigned(text, i, n);
    EndsBrace(text, j + 1, cfg, Number(n), INFINITY, NOrMore(n));
  }

  /** The text behind the '{' of `{n,m}`, cut into its parts. */
  lemma NToMParts(text: Text, i: nat, n: Text, m: Text)
    requires At(text, i, n + ([',' as nat] + (m + ['}' as nat]))) && m != [] && DigitsWritten(m)
    ensures At(text, i, n) && Peek(text, i + |n|) == ',' as nat && At(text, i + |n| + 1, m)
    ensures At(text, i + |n| + 1 + |m|, ['}' as nat]) && Peek(text, i + |n| + 1 + |m|) == '}' as nat
    ensures Peek(text, i + |n| + 1) != '}' as nat
  {
    hide At;
    AtConcat(text, i, n, [',' as nat] + (m + ['}' as nat]));
    var j := i + |n|;
    AtConcat(text, j, [',' as nat], m + ['}' as nat]);
    AtChar(text, j, ',' as nat);
    AtConcat(text, j + 1, m, ['}' as nat]);
    AtChar(text, j + 1 + |m|, '}' as nat);
    assert m == [m[0]] + m[1..];
    AtConcat(text, j + 1, [m[0]], m[1..]);
    AtChar(text, j + 1, m[0]);
  }

  lemma NToMSame(text: Text, i: nat, cfg: Config, n: Text, m: Text)
    requires At(text, i, n + ([',' as nat] + (m + ['}' as nat]))) && DigitsWritten(n) && DigitsWritten(m)
    requires Number(n) < 0x1_0000_0000 && Number(m) < 0x1_0000_0000
    ensures SameBrace(text, i, cfg, NToM(n, m))
  {
    hide At, Number, NumeralFrom, DigitsWritten, StepBraceEnd, ParseUnsigned, Taken, NumberWritten, AllDigits, IsDigit, Goes, Peek;
    BraceIsNoDigit();
    FittingNumber(n);
    FittingNumber(m);
    NToMParts(text, i, n, m);
    var j := i + |n|;
    ReadUnsigned(text, i, n);
    ReadUnsigned(text, j + 1, m);
    if Number(n) <= Number(m) {
      EndsBrace(text, j + 1 + |m|, cfg, Number(n), Number(m), NToM(n, m));
    } else {
      NotWritten(cfg, NToM(n, m));
    }
  }

  lemma BraceSame(text: Text, i: nat, cfg: Config, q: QuantifierText)
    requires q.Exactly? || q.NOrMore? || q.NToM?
    requires At(text, i, QuantifierTextOf(q)) && SignWritten(Times(q)) && SignFits(Times(q))
    ensures At(text, i, ['{' as nat]) && SameBrace(text, i + 1, cfg, q)
  {
    hide At, Number, DigitsWritten, StepBrace, Taken, SameBrace;
    match q
    case Exactly(n) =>
      AtConcat(text, i, ['{' as nat], n + ['}' as nat]);
      ExactlySame(text, i + 1, cfg, n);
    case NOrMore(n) =>
      AtConcat(text, i, ['{' as nat], n + ([',' as nat] + ['}' as nat]));
      NOrMoreSame(text, i + 1, cfg, n);
    case NToM(n, m) =>
      AtConcat(text, i, ['{' as nat], n + ([',' as nat] + (m + ['}' as nat])));
      NToMSame(text, i + 1, cfg, n, m);
  }

  lemma NotWritten(cfg: Config, q: QuantifierText)
    requires !QuantifierWritten(q)
    ensures Taken(cfg, Times(q)) == None && forall o :: Goes(Halted(o)) == None
  {
    hide QuantifierWritten;
  }

  lemma QuantifierTaken(text: Text, i: nat, cfg: Config, q: QuantifierText)
    requires At(text, i, QuantifierTextOf(q)) && SignWritten(Times(q)) && SignFits(Times(q))
    ensures i < |text| && Takes(text, i, cfg, Times(q))
  {
    hide At, StepBrace, Number, DigitsWritten;
    match q
    case Question => AtChar(text, i, '?' as nat);
    case Star => AtChar(text, i, '*' as nat);
    case Plus => AtChar(text, i, '+' as nat);
    case _ =>
      BraceSame(text, i, cfg, q);
      AtChar(text, i, '{' as nat);
  }

  lemma AtomTaken(text: Text, i: nat, cfg: Config, a: AtomText)
    requires At(text, i, AtomTextOf(a)) && AtomWritten(a)
    ensures i < |text| && Takes(text, i, cfg, Operand(a))
  {
    hide At, ScanClass, ItemsOk, ClassBody, AtomWritten, SymbolOf;
    AtomIsOk(a);
    AtomStep(text, i, cfg, a);
  }

  lemma AtomStep(text: Text, i: nat, cfg: Config, a: AtomText)
    requires At(text, i, AtomTextOf(a)) && AtomOk(a)
    ensures i < |text| && Step(text, i, cfg) == PushAtom(cfg, SymbolOf(a), i + |AtomTextOf(a)|)
  {
    hide At, ScanClass, PushAtom, ItemsOk, ClassBody, ClassRanges;
    match a
    case Raw(c) => AtChar(text, i, c);
    case Dot => AtChar(text, i, '.' as nat);
    case Escaped(c) =>
      AtConcat(text, i, ['\\' as nat], [c]);
      AtChar(text, i, '\\' as nat);
      AtChar(text, i + 1, c);
    case Bracket(_, _, _) => ReadClass(text, i, a);
  }

  /** Where a sign is written, the reader takes it. */
  lemma SignTaken(text: Text, i: nat, cfg: Config, t: Sign)
    requires At(text, i, SignText(t)) && SignWritten(t) && SignFits(t)
    ensures i < |text| && Takes(text, i, cfg, t)
  {
    hide At, Reduce, AtomWritten;
    match t
    case Begin => AtChar(text, i, '^' as nat);
    case End => AtChar(text, i, '$' as nat);
    case Bar => AtChar(text, i, '|' as nat);
    case Open => AtChar(text, i, '(' as nat);
    case Close => AtChar(text, i, ')' as nat);
    case Operand(a) => AtomTaken(text, i, cfg, a);
    case Times(q) => QuantifierTaken(text, i, cfg, q);
  }

  lemma {:induction false} RunTaken(text: Text, i: nat, cfg: Config, ts: seq<Sign>)
    requires AllWritten(ts) && AllFit(ts) && i <= |text| && text[i..] == SignsText(ts)
    ensures match AllTaken(cfg, ts)
            case None => !Run(text, i, cfg).Compiled?
            case Some(end) => Run(text, i, cfg) == Finish(end)
    decreases |ts|
  {
    hide Step, SignText, SignWritten, SignFits, Finish, Taken;
    if ts != [] {
      var t, rest := ts[0], ts[1..];
      var n := |SignText(t)|;
      assert text[i..][..n] == SignText(t);
      assert At(text, i, SignText(t));
      SignTaken(text, i, cfg, t);
      StepsNeverCompile(text, i, cfg);
      assert text[i + n..] == text[i..][n..];
      if Taken(cfg, t).Some? {
        RunTaken(text, i + n, Taken(cfg, t).value, rest);
      }
    }
  }

  // ----- The anchors stand anywhere -----

  function Flagged(cfg: Config, begin: bool, end: bool): Config {
    cfg.(anchorBegin := begin, anchorEnd := end)
  }

  /** The other sign does the same whatever the anchors are. */
  ghost predicate KeepsFlags(cfg: Config, begin: bool, end: bool, r: Option<Config>, flagged: Option<Config>) {
    match r
    case None => flagged == None
    case Some(c) => c.anchorBegin == cfg.anchorBegin && c.anchorEnd == cfg.anchorEnd && flagged == Some(Flagged(c, begin, end))
  }

  lemma AtomFlags(cfg: Config, s: Symbol, begin: bool, end: bool)
    ensures KeepsFlags(cfg, begin, end, Goes(PushAtom(cfg, s, 0)), Goes(PushAtom(Flagged(cfg, begin, end), s, 0)))
  {
  }

  lemma BarFlags(cfg: Config, begin: bool, end: bool)
    ensures KeepsFlags(cfg, begin, end, Goes(StepBar(cfg, 0)), Goes(StepBar(Flagged(cfg, begin, end), 0)))
  {
    hide Reduce;
  }

  lemma CloseFlags(cfg: Config, begin: bool, end: bool)
    ensures KeepsFlags(cfg, begin, end, Goes(StepClose(cfg, 0)), Goes(StepClose(Flagged(cfg, begin, end), 0)))
  {
    hide Reduce;
  }

  lemma FlagsKept(cfg: Config, t: Sign, begin: bool, end: bool)
    requires !t.Begin? && !t.End?
    ensures KeepsFlags(cfg, begin, end, Taken(cfg, t), Taken(Flagged(cfg, begin, end), t))
  {
    hide StepBar, StepClose, PushAtom, Goes, QuantifierWritten, QuantifierMeaning, SymbolOf;
    match t
    case Bar => BarFlags(cfg, begin, end);
    case Close => CloseFlags(cfg, begin, end);
    case Operand(a) => AtomFlags(cfg, SymbolOf(a), begin, end);
    case _ =>
  }

  lemma {:induction false} AnchorsAside(cfg: Config, ts: seq<Sign>)
    ensures AllTaken(cfg, ts) ==
            AllTaken(Flagged(cfg, cfg.anchorBegin || Begin in ts, cfg.anchorEnd || End in ts), Bare(ts))
    decreases |ts|
  {
    hide Taken;
    var begin, end := cfg.anchorBegin || Begin in ts, cfg.anchorEnd || End in ts;
    if ts == [] {
      assert Flagged(cfg, begin, end) == cfg;
    } else {
      var t, rest := ts[0], ts[1..];
      assert ts == [t] + rest;
      if t.Begin? || t.End? {
        SignFlags(cfg, t);
        AnchorsAside(Taken(cfg, t).value, rest);
      } else {
        FlagsKept(cfg, t, begin, end);
        assert Bare(ts)[1..] == Bare(rest);
        if Taken(cfg, t).Some? {
          AnchorsAside(Taken(cfg, t).value, rest);
        }
      }
    }
  }

  lemma SignFlags(cfg: Config, t: Sign)
    requires t.Begin? || t.End?
    ensures Taken(cfg, t) == Some(Flagged(cfg, cfg.anchorBegin || t.Begin?, cfg.anchorEnd || t.End?))
  {
  }

  lemma {:induction false} FlagsKeptAll(cfg: Config, ts: seq<Sign>, begin: bool, end: bool)
    requires Bare(ts) == ts
    ensures AllTaken(Flagged(cfg, begin, end), ts).Some? <==> AllTaken(cfg, ts).Some?
    ensures AllTaken(cfg, ts).Some? ==> AllTaken(Flagged(cfg, begin, end), ts).value == Flagged(AllTaken(cfg, ts).value, begin, end)
    decreases |ts|
  {
    hide Taken;
    if ts != [] {
      BareIsShort(ts[1..]);
      FlagsKept(cfg, ts[0], begin, end);
      assert Bare(ts)[1..] == ts[1..];
      if Taken(cfg, ts[0]).Some? {
        FlagsKeptAll(Taken(cfg, ts[0]).value, ts[1..], begin, end);
      }
    }
  }

  lemma {:induction false} BareIsShort(ts: seq<Sign>)
    ensures |Bare(ts)| <= |ts|
    decreases |ts|
  {
    if ts != [] {
      BareIsShort(ts[1..]);
    }
  }

  lemma FinishFlagged(cfg: Config, begin: bool, end: bool)
    ensures Finish(Flagged(cfg, begin, end)) ==
            match Finish(cfg)
            case Compiled(e, _, _) => Compiled(e, begin, end)
            case o => o
  {
    ReduceNeverCompiles(cfg.trees, cfg.ops, AtBottom);
  }

  // ----- An empty alternative or group is never made good -----

  function Binary(ops: seq<Operator>): nat {
    if ops == [] then 0
    else Binary(ops[..|ops| - 1]) + if ops[|ops| - 1] == OpConcatenation || ops[|ops| - 1] == OpAlternation then 1 else 0
  }

  function Parens(ops: seq<Operator>): nat {
    if ops == [] then 0 else Parens(ops[..|ops| - 1]) + if ops[|ops| - 1] == OpLeftParenthesis then 1 else 0
  }

  function Begun(counts: seq<nat>): nat {
    if counts == [] then 0 else Begun(counts[..|counts| - 1]) + if counts[|counts| - 1] > 0 then 1 else 0
  }

  /** The operands that the operators and the open branches lack. */
  function Deficit(cfg: Config): int {
    Binary(cfg.ops) + Begun(cfg.counts) - |cfg.trees|
  }

  /** One count of atoms for the pattern and one for every open group. */
  predicate Counted(cfg: Config) {
    |cfg.counts| == 1 + Parens(cfg.ops)
  }

  lemma PushOp(ops: seq<Operator>, op: Operator)
    ensures Binary(ops + [op]) == Binary(ops) + if op == OpConcatenation || op == OpAlternation then 1 else 0
    ensures Parens(ops + [op]) == Parens(ops) + if op == OpLeftParenthesis then 1 else 0
  {
    assert (ops + [op])[..|ops|] == ops;
  }

  lemma LastCount(counts: seq<nat>, c: nat)
    requires counts != []
    ensures Begun(counts[|counts| - 1 := c]) == Begun(counts[..|counts| - 1]) + if c > 0 then 1 else 0
    ensures Begun(counts + [c]) == Begun(counts) + if c > 0 then 1 else 0
  {
    assert counts[|counts| - 1 := c][..|counts| - 1] == counts[..|counts| - 1];
    assert (counts + [c])[..|counts|] == counts;
  }

  lemma EvalCounts(ts: seq<Regex>, op: Operator)
    requires EvalTrees(ts, op).Trees?
    ensures |EvalTrees(ts, op).ts| == |ts| - (if op == OpConcatenation || op == OpAlternation then 1 else 0)
    ensures op != OpLeftParenthesis
  {
  }

  /** Evaluating operators takes as many operands as operators away. */
  lemma {:induction false} ReduceCounts(ts: seq<Regex>, ops: seq<Operator>, stop: Stop)
    requires Reduce(ts, ops, stop).Reduced?
    ensures var r := Reduce(ts, ops, stop);
            && |r.trees| - Binary(r.ops) == |ts| - Binary(ops)
            && Parens(r.ops) == Parens(ops)
            && (r.ops == [] || !Pops(stop, r.ops[|r.ops| - 1]))
    decreases |ops|
  {
    hide EvalTrees, Pops;
    var n := |ops|;
    if n > 0 && Pops(stop, ops[n - 1]) {
      EvalCounts(ts, ops[n - 1]);
      ReduceCounts(EvalTrees(ts, ops[n - 1]).ts, ops[..n - 1], stop);
    }
  }

  lemma AtomCounts(cfg: Config, i: nat)
    requires Counted(cfg)
    ensures Atom(cfg, i).Running? && Counted(Atom(cfg, i).cfg) && Deficit(Atom(cfg, i).cfg) == Deficit(cfg) + 1
  {
    hide Binary, Parens, Begun;
    var n := |cfg.counts|;
    LastCount(cfg.counts, cfg.counts[n - 1] + 1);
    LastCount(cfg.counts, cfg.counts[n - 1]);
    assert cfg.counts[n - 1 := cfg.counts[n - 1]] == cfg.counts;
    PushOp(cfg.ops, OpConcatenation);
  }

  lemma BarCounts(cfg: Config)
    requires Counted(cfg) && Taken(cfg, Bar).Some?
    ensures Counted(Taken(cfg, Bar).value)
    ensures Deficit(Taken(cfg, Bar).value) == Deficit(cfg) + if cfg.counts[|cfg.counts| - 1] == 0 then 1 else 0
  {
    hide Reduce, Binary, Parens, Begun, Pops;
    var n := |cfg.counts|;
    ReduceCounts(cfg.trees, cfg.ops, AtAlternation);
    PushOp(Reduce(cfg.trees, cfg.ops, AtAlternation).ops, OpAlternation);
    LastCount(cfg.counts, 0);
    LastCount(cfg.counts, cfg.counts[n - 1]);
    assert cfg.counts[n - 1 := cfg.counts[n - 1]] == cfg.counts;
  }

  lemma CloseCounts(cfg: Config)
    requires Counted(cfg) && Taken(cfg, Close).Some?
    ensures Counted(Taken(cfg, Close).value)
    ensures Deficit(Taken(cfg, Close).value) == Deficit(cfg) + if cfg.counts[|cfg.counts| - 1] == 0 then 1 else 0
  {
    hide Reduce;
    ReduceCounts(cfg.trees, cfg.ops, AtParenthesis);
    var r := Reduce(cfg.trees, cfg.ops, AtParenthesis);
    AtomCounts(cfg.(trees := r.trees, ops := r.ops[..|r.ops| - 1], counts := cfg.counts[..|cfg.counts| - 1]), 0);
  }

  lemma TakenCounts(cfg: Config, t: Sign)
    requires Counted(cfg) && Taken(cfg, t).Some?
    ensures Counted(Taken(cfg, t).value) && Deficit(Taken(cfg, t).value) >= Deficit(cfg)
  {
    hide StepBar, StepClose, QuantifierWritten, QuantifierMeaning, Binary, Parens, Begun, Atom, SymbolOf;
    match t
    case Bar => BarCounts(cfg);
    case Close => CloseCounts(cfg);
    case Open =>
      PushOp(cfg.ops, OpLeftParenthesis);
      LastCount(cfg.counts, 0);
    case Operand(a) => AtomCounts(cfg.(trees := cfg.trees + [Sym(SymbolOf(a))]), 0);
    case _ =>
  }

  lemma {:induction false} FewBegun(counts: seq<nat>)
    ensures Begun(counts) <= |counts|
    decreases |counts|
  {
    if counts != [] {
      FewBegun(counts[..|counts| - 1]);
    }
  }

  lemma FinishCounts(cfg: Config)
    requires Counted(cfg) && Finish(cfg).Compiled?
    ensures Parens(cfg.ops) == 0 && |cfg.trees| - Binary(cfg.ops) == 1 && Deficit(cfg) <= 0
  {
    ReduceNeverCompiles(cfg.trees, cfg.ops, AtBottom);
    ReduceCounts(cfg.trees, cfg.ops, AtBottom);
    FewBegun(cfg.counts);
  }

  /** Whoever lacks an operand never compiles. */
  lemma {:induction false} LackStays(cfg: Config, ts: seq<Sign>)
    requires Counted(cfg) && AllTaken(cfg, ts).Some? && Finish(AllTaken(cfg, ts).value).Compiled?
    ensures Deficit(cfg) <= 0
    decreases |ts|
  {
    hide Taken, Finish, Deficit, Counted;
    if ts == [] {
      FinishCounts(cfg);
    } else {
      TakenCounts(cfg, ts[0]);
      LackStays(Taken(cfg, ts[0]).value, ts[1..]);
    }
  }

  // ----- The part of a pattern read so far -----

  /** An open group or the pattern itself: the finished alternatives, and the factors of the last one. */
  datatype Frame = Frame(context: Context, alts: seq<Pattern>, factors: seq<Pattern>)

  datatype Context = Outermost(begin: bool, end: bool) | Inside(outer: Frame)

  function SignsOfAll(ps: seq<Pattern>): seq<Sign> {
    if ps == [] then [] else SignsOfAll(ps[..|ps| - 1]) + SignsOf(ps[|ps| - 1])
  }

  function SignsOfAlts(ps: seq<Pattern>): seq<Sign> {
    if ps == [] then [] else SignsOfAlts(ps[..|ps| - 1]) + SignsOf(ps[|ps| - 1]) + [Bar]
  }

  function ContextSigns(c: Context): seq<Sign> {
    match c
    case Outermost(_, _) => []
    case Inside(f) => FrameSigns(f) + [Open]
  }

  function FrameSigns(f: Frame): seq<Sign> {
    ContextSigns(f.context) + SignsOfAlts(f.alts) + SignsOfAll(f.factors)
  }

  function TreesOf(ps: seq<Pattern>): seq<Regex> {
    seq(|ps|, k requires 0 <= k < |ps| => TreeOf(ps[k]))
  }

  function Bars(n: nat): seq<Operator> {
    seq(n, _ => OpAlternation)
  }

  function ContextConfig(c: Context): (cfg: Config)
    ensures cfg.counts != [] && cfg.counts[|cfg.counts| - 1] == 0
  {
    match c
    case Outermost(b, e) => Config([], [], [0], b, e)
    case Inside(f) => Opened(FrameConfig(f))
  }

  function FrameConfig(f: Frame): (cfg: Config)
    ensures cfg.counts != [] && cfg.counts[|cfg.counts| - 1] == |f.factors|
  {
    var base := ContextConfig(f.context);
    base.(trees := base.trees + TreesOf(f.alts) + TreesOf(f.factors),
          ops := base.ops + Bars(|f.alts|) + Concats(if f.factors == [] then 0 else |f.factors| - 1),
          counts := base.counts[|base.counts| - 1 := |f.factors|])
  }

  predicate IsFactor(p: Pattern) {
    Written(p) && !p.Sequence? && !p.Choice?
  }

  predicate IsAlt(p: Pattern) {
    Written(p) && !p.Choice?
  }

  predicate FrameOk(f: Frame) {
    && (forall k :: 0 <= k < |f.alts| ==> IsAlt(f.alts[k]))
    && (forall k :: 0 <= k < |f.factors| ==> IsFactor(f.factors[k]))
    && (f.context.Inside? ==> FrameOk(f.context.outer))
  }

  function Row(ps: seq<Pattern>): Pattern
    requires ps != []
  {
    if |ps| == 1 then ps[0] else Sequence(ps[0], Row(ps[1..]))
  }

  function Alternatives(alts: seq<Pattern>, last: Pattern): Pattern {
    if alts == [] then last else Choice(alts[0], Alternatives(alts[1..], last))
  }

  lemma {:induction false} RowIs(ps: seq<Pattern>)
    requires ps != [] && forall k :: 0 <= k < |ps| ==> IsFactor(ps[k])
    ensures IsAlt(Row(ps)) && Factors(Row(ps)) == TreesOf(ps) && SignsOf(Row(ps)) == SignsOfAll(ps)
    decreases |ps|
  {
    hide TreeOf;
    if |ps| == 1 {
      assert ps[..0] == [];
      assert TreesOf(ps) == [TreeOf(ps[0])];
    } else {
      RowIs(ps[1..]);
      assert TreesOf(ps) == [TreeOf(ps[0])] + TreesOf(ps[1..]);
      SignsFromFront(ps);
    }
  }

  lemma LastSigns(ps: seq<Pattern>, p: Pattern)
    ensures SignsOfAll(ps + [p]) == SignsOfAll(ps) + SignsOf(p)
    ensures SignsOfAlts(ps + [p]) == SignsOfAlts(ps) + SignsOf(p) + [Bar]
  {
    hide SignsOf;
    assert (ps + [p])[..|ps|] == ps;
  }

  lemma {:induction false} SignsFromFront(ps: seq<Pattern>)
    requires ps != []
    ensures SignsOfAll(ps) == SignsOf(ps[0]) + SignsOfAll(ps[1..])
    ensures SignsOfAlts(ps) == SignsOf(ps[0]) + [Bar] + SignsOfAlts(ps[1..])
    decreases |ps|
  {
    hide SignsOf, SignsOfAll, SignsOfAlts;
    var n := |ps|;
    if n == 1 {
      assert ps == [] + [ps[0]] && ps[1..] == [];
      LastSigns([], ps[0]);
      NoSigns(SignsOf(ps[0]));
    } else {
      var last := ps[n - 1];
      SignsFromFront(ps[..n - 1]);
      assert ps[..n - 1][1..] == ps[1..n - 1];
      assert ps == ps[..n - 1] + [last] && ps[1..] == ps[1..n - 1] + [last];
      LastSigns(ps[..n - 1], last);
      LastSigns(ps[1..n - 1], last);
      Together(SignsOf(ps[0]), SignsOfAll(ps[1..n - 1]), SignsOf(last));
      Together(SignsOf(ps[0]) + [Bar], SignsOfAlts(ps[1..n - 1]), SignsOf(last) + [Bar]);
      Together(SignsOfAlts(ps[..n - 1]), SignsOf(last), [Bar]);
      Together(SignsOfAlts(ps[1..n - 1]), SignsOf(last), [Bar]);
    }
  }

  lemma NoSigns(ts: seq<Sign>)
    ensures SignsOfAll([]) == [] && SignsOfAlts([]) == [] && [] + ts == ts && ts + [] == ts && ts + [Bar] + [] == ts + [Bar]
  {
  }

  lemma Together(a: seq<Sign>, b: seq<Sign>, c: seq<Sign>)
    ensures a + b + c == a + (b + c)
  {
  }

  lemma {:induction false} AlternativesAre(alts: seq<Pattern>, last: Pattern)
    requires (forall k :: 0 <= k < |alts| ==> IsAlt(alts[k])) && IsAlt(last)
    ensures Written(Alternatives(alts, last)) && SignsOf(Alternatives(alts, last)) == SignsOfAlts(alts) + SignsOf(last)
    decreases |alts|
  {
    hide SignsOf, SignsOfAlts, Written;
    if alts == [] {
      NoAlts(SignsOf(last));
    } else {
      AlternativesAre(alts[1..], last);
      SignsFromFront(alts);
      ChoiceIs(alts[0], Alternatives(alts[1..], last));
      assert SignsOf(alts[0]) + [Bar] + (SignsOfAlts(alts[1..]) + SignsOf(last)) ==
             SignsOf(alts[0]) + [Bar] + SignsOfAlts(alts[1..]) + SignsOf(last);
    }
  }

  lemma NoAlts(ts: seq<Sign>)
    ensures SignsOfAlts([]) + ts == ts
  {
  }

  lemma ChoiceIs(a: Pattern, r: Pattern)
    requires IsAlt(a) && Written(r)
    ensures Written(Choice(a, r)) && SignsOf(Choice(a, r)) == SignsOf(a) + [Bar] + SignsOf(r)
  {
  }

  lemma {:induction false} AlternativesLeave(alts: seq<Pattern>, last: Pattern)
    requires !last.Choice?
    ensures var p := Alternatives(alts, last);
            && ChoiceTrees(p) == TreesOf(alts) + Factors(last)
            && ChoiceOps(p) == Bars(|alts|) + Concats(|Factors(last)| - 1)
            && LastFactors(p) == |Factors(last)|
    decreases |alts|
  {
    hide TreeOf, Factors;
    if alts == [] {
      assert TreesOf(alts) + Factors(last) == Factors(last);
      assert Bars(0) + Concats(|Factors(last)| - 1) == Concats(|Factors(last)| - 1);
    } else {
      AlternativesLeave(alts[1..], last);
      assert TreesOf(alts) == [TreeOf(alts[0])] + TreesOf(alts[1..]);
      assert Bars(|alts|) == [OpAlternation] + Bars(|alts| - 1);
    }
  }

  // ----- One more sign -----

  lemma OneFactor(ps: seq<Pattern>, p: Pattern)
    requires !p.Sequence?
    ensures Factors(p) == [TreeOf(p)] && TreesOf(ps + [p]) == TreesOf(ps) + [TreeOf(p)]
  {
    hide TreeOf;
  }

  lemma AddFactor(f: Frame, p: Pattern)
    requires !p.Sequence?
    ensures AfterFactors(FrameConfig(f), p) == FrameConfig(f.(factors := f.factors + [p]))
  {
    hide TreeOf, TreesOf, Factors, ContextConfig, Concats, Bars;
    var base, n := ContextConfig(f.context), |f.factors|;
    var cfg, next := FrameConfig(f), FrameConfig(f.(factors := f.factors + [p]));
    OneFactor(f.factors, p);
    OneConcat(base.ops + Bars(|f.alts|), n);
    assert next.trees == cfg.trees + [TreeOf(p)];
    assert next.counts == cfg.counts[|cfg.counts| - 1 := n + 1];
    assert next.ops == cfg.ops + Concats(if n > 0 then 1 else 0);
  }

  lemma OneConcat(ops: seq<Operator>, n: nat)
    ensures ops + Concats(0) == ops && ops + Concats(0) + Concats(0) == ops + Concats(0)
    ensures n > 0 ==> ops + Concats(n - 1) + Concats(1) == ops + Concats(n)
  {
  }

  lemma OperandTaken(f: Frame, a: AtomText)
    ensures Taken(FrameConfig(f), Operand(a)) == Some(FrameConfig(f.(factors := f.factors + [Atomic(a)])))
  {
    hide FrameConfig, SymbolOf, PushAtom;
    AtomFactors(FrameConfig(f), a, 0);
    AddFactor(f, Atomic(a));
  }

  function Requantify(f: Frame, q: QuantifierText): Frame
    requires f.factors != []
  {
    var n := |f.factors|;
    f.(factors := f.factors[..n - 1] + [Quantified(f.factors[n - 1], q)])
  }

  /** The operand of the last factor is on top. */
  lemma LastOnTop(f: Frame)
    requires f.factors != []
    ensures var n := |f.factors|;
            FrameConfig(f).trees == ContextConfig(f.context).trees + TreesOf(f.alts) + TreesOf(f.factors[..n - 1]) + [TreeOf(f.factors[n - 1])]
  {
    hide TreeOf, ContextConfig;
    var n := |f.factors|;
    assert TreesOf(f.factors) == TreesOf(f.factors[..n - 1]) + [TreeOf(f.factors[n - 1])];
  }

  lemma TimesTaken(f: Frame, q: QuantifierText)
    requires f.factors != [] && Taken(FrameConfig(f), Times(q)).Some?
    ensures QuantifierWritten(q) && Taken(FrameConfig(f), Times(q)) == Some(FrameConfig(Requantify(f, q)))
  {
    hide QuantifierWritten, QuantifierMeaning, ContextConfig, TreesOf, FrameConfig;
    var g, n := Requantify(f, q), |f.factors|;
    LastOnTop(f);
    LastOnTop(g);
    assert g.factors[..n - 1] == f.factors[..n - 1];
    SameBase(f, g);
    var trees := FrameConfig(f).trees;
    assert trees[..|trees| - 1] == ContextConfig(f.context).trees + TreesOf(f.alts) + TreesOf(f.factors[..n - 1]);
  }

  lemma SameBase(f: Frame, g: Frame)
    requires g.context == f.context && g.alts == f.alts && |g.factors| == |f.factors|
    ensures FrameConfig(g) == FrameConfig(f).(trees := FrameConfig(g).trees)
  {
    hide ContextConfig, TreesOf;
  }

  lemma OpenTaken(f: Frame)
    ensures Taken(FrameConfig(f), Open) == Some(FrameConfig(Frame(Inside(f), [], [])))
  {
    var base := Opened(FrameConfig(f));
    assert base.trees + TreesOf([]) + TreesOf([]) == base.trees;
    assert base.ops + Bars(0) + Concats(0) == base.ops;
    assert base.counts[|base.counts| - 1 := 0] == base.counts;
  }

  lemma BlankFrame(f: Frame)
    requires f.factors == []
    ensures BranchStart(FrameConfig(f))
  {
    hide TreeOf;
    var base := ContextConfig(f.context);
    assert base.ops == [] || base.ops[|base.ops| - 1] == OpLeftParenthesis;
    var ops := FrameConfig(f).ops;
    assert ops == base.ops + Bars(|f.alts|);
    if |f.alts| > 0 {
      assert ops[|ops| - 1] == OpAlternation;
    }
  }

  /** The factors of the open branch, put behind the blank frame. */
  lemma RowBehind(f: Frame)
    requires f.factors != [] && FrameOk(f)
    ensures AfterFactors(FrameConfig(f.(factors := [])), Row(f.factors)) == FrameConfig(f)
  {
    hide TreeOf;
    var blank, base, n := FrameConfig(f.(factors := [])), ContextConfig(f.context), |f.factors|;
    RowIs(f.factors);
    assert blank.trees == base.trees + TreesOf(f.alts);
    assert blank.ops == base.ops + Bars(|f.alts|);
    assert blank.counts == base.counts;
    assert base.counts[|base.counts| - 1 := 0 + n] == base.counts[|base.counts| - 1 := n];
  }

  lemma BarTaken(f: Frame)
    requires f.factors != [] && FrameOk(f)
    ensures Taken(FrameConfig(f), Bar) == Some(FrameConfig(Frame(f.context, f.alts + [Row(f.factors)], [])))
  {
    hide TreeOf, AfterFactors, BranchStart, StepBar, Row;
    var g, base := f.(factors := []), ContextConfig(f.context);
    RowBehind(f);
    BlankFrame(g);
    CloseBranch(FrameConfig(g), Row(f.factors), 0);
    var next := NextBranch(FrameConfig(g), Row(f.factors));
    assert TreesOf(f.alts + [Row(f.factors)]) == TreesOf(f.alts) + [TreeOf(Row(f.factors))];
    assert next.trees == base.trees + TreesOf(f.alts + [Row(f.factors)]) + TreesOf([]);
    assert Bars(|f.alts|) + [OpAlternation] == Bars(|f.alts| + 1);
    assert next.ops == base.ops + Bars(|f.alts| + 1) + Concats(0);
  }

  /** What has been read of a frame, as one pattern. */
  function Whole(f: Frame): Pattern
    requires f.factors != []
  {
    Alternatives(f.alts, Row(f.factors))
  }

  lemma WholeBehind(f: Frame)
    requires f.factors != [] && FrameOk(f)
    ensures AfterChoice(ContextConfig(f.context), Whole(f)) == FrameConfig(f)
    ensures Written(Whole(f)) && ContextSigns(f.context) + SignsOf(Whole(f)) == FrameSigns(f)
  {
    hide TreeOf, SignsOf, SignsOfAll, SignsOfAlts, Written;
    var base := ContextConfig(f.context);
    RowIs(f.factors);
    AlternativesAre(f.alts, Row(f.factors));
    AlternativesLeave(f.alts, Row(f.factors));
    assert base.trees + (TreesOf(f.alts) + TreesOf(f.factors)) == base.trees + TreesOf(f.alts) + TreesOf(f.factors);
  }

  lemma CloseTaken(f: Frame)
    requires f.factors != [] && FrameOk(f) && f.context.Inside?
    ensures var g := f.context.outer;
            Taken(FrameConfig(f), Close) == Some(FrameConfig(g.(factors := g.factors + [Group(Whole(f))])))
  {
    hide FrameConfig, AfterChoice, AfterFactors, StepClose, Whole;
    var g := f.context.outer;
    WholeBehind(f);
    CloseGroup(FrameConfig(g), Whole(f), 0);
    AddFactor(g, Group(Whole(f)));
  }

  lemma NothingToClose(f: Frame)
    requires f.factors != [] && FrameOk(f) && f.context.Outermost?
    ensures Taken(FrameConfig(f), Close) == None
  {
    hide TreeOf, Whole, FrameConfig, ChoiceTrees, ChoiceOps;
    WholeBehind(f);
    ReduceChoice([], [], Whole(f), AtParenthesis);
    assert [] + ChoiceTrees(Whole(f)) == ChoiceTrees(Whole(f)) && [] + ChoiceOps(Whole(f)) == ChoiceOps(Whole(f));
  }

  // ----- What was read is a pattern -----

  lemma {:induction false} OpsCount(n: nat, ops: seq<Operator>)
    ensures Binary(ops + Bars(n)) == Binary(ops) + n && Parens(ops + Bars(n)) == Parens(ops)
    ensures Binary(ops + Concats(n)) == Binary(ops) + n && Parens(ops + Concats(n)) == Parens(ops)
    decreases n
  {
    hide Binary, Parens;
    if n == 0 {
      assert ops + Bars(0) == ops && ops + Concats(0) == ops;
    } else {
      OpsCount(n - 1, ops);
      PushOp(ops + Bars(n - 1), OpAlternation);
      PushOp(ops + Concats(n - 1), OpConcatenation);
      assert ops + Bars(n) == ops + Bars(n - 1) + [OpAlternation];
      assert ops + Concats(n) == ops + Concats(n - 1) + [OpConcatenation];
    }
  }

  lemma TopCounts(f: Frame)
    requires Counted(ContextConfig(f.context)) && Deficit(ContextConfig(f.context)) == 0
    ensures Counted(FrameConfig(f)) && Deficit(FrameConfig(f)) == 0
    ensures Parens(FrameConfig(f).ops) == Parens(ContextConfig(f.context).ops)
  {
    hide TreeOf, ContextConfig, Binary, Parens, Begun;
    var base := ContextConfig(f.context);
    OpsCount(|f.alts|, base.ops);
    OpsCount(if f.factors == [] then 0 else |f.factors| - 1, base.ops + Bars(|f.alts|));
    LastCount(base.counts, |f.factors|);
    LastCount(base.counts, 0);
    assert base.counts[|base.counts| - 1 := 0] == base.counts;
  }

  lemma {:induction false} FrameCounts(f: Frame)
    ensures Counted(FrameConfig(f)) && Deficit(FrameConfig(f)) == 0
    ensures Parens(FrameConfig(f).ops) > 0 <==> f.context.Inside?
    decreases f
  {
    hide TreeOf, FrameConfig;
    if f.context.Inside? {
      var cfg := FrameConfig(f.context.outer);
      FrameCounts(f.context.outer);
      PushOp(cfg.ops, OpLeftParenthesis);
      LastCount(cfg.counts, 0);
    }
    TopCounts(f);
  }

  /** The last sign of a frame that has no factors yet. */
  lemma BlankSigns(f: Frame)
    requires f.factors == []
    ensures FrameSigns(f) == [] || FrameSigns(f)[|FrameSigns(f)| - 1] == Open || FrameSigns(f)[|FrameSigns(f)| - 1] == Bar
  {
  }

  lemma AlternativeEnds(f: Frame, ts: seq<Sign>)
    requires ts != [] && (ts[0].Bar? || ts[0].Close?)
    requires AllTaken(FrameConfig(f), ts).Some? && Finish(AllTaken(FrameConfig(f), ts).value).Compiled?
    ensures f.factors != []
  {
    hide FrameConfig, Taken, Finish, Deficit, Counted;
    var cfg := FrameConfig(f);
    FrameCounts(f);
    if ts[0].Bar? {
      BarCounts(cfg);
    } else {
      CloseCounts(cfg);
    }
    LackStays(Taken(cfg, ts[0]).value, ts[1..]);
  }

  lemma PatternEnds(f: Frame)
    requires FrameOk(f) && Finish(FrameConfig(f)).Compiled?
    ensures f.factors != [] && f.context.Outermost?
  {
    hide FrameConfig, Finish;
    FrameCounts(f);
    FinishCounts(FrameConfig(f));
    if f.factors == [] {
      LastBegun(FrameConfig(f).counts);
    }
  }

  lemma LastBegun(counts: seq<nat>)
    requires |counts| == 1 && counts[0] == 0
    ensures Begun(counts) == 0
  {
  }

  /** The frame after one more sign. */
  predicate Follows(f: Frame, t: Sign, g: Frame) {
    match t
    case Operand(a) => AtomWritten(a) && g == f.(factors := f.factors + [Atomic(a)])
    case Times(q) => f.factors != [] && QuantifierWritten(q) && g == Requantify(f, q)
    case Open => g == Frame(Inside(f), [], [])
    case Bar => f.factors != [] && g == Frame(f.context, f.alts + [Row(f.factors)], [])
    case Close =>
      && f.factors != [] && f.context.Inside?
      && g == f.context.outer.(factors := f.context.outer.factors + [Group(Whole(f))])
    case _ => false
  }

  lemma FactorSigns(f: Frame, g: Frame, t: Sign)
    requires g.context == f.context && g.alts == f.alts && SignsOfAll(g.factors) == SignsOfAll(f.factors) + [t]
    ensures FrameSigns(g) == FrameSigns(f) + [t]
  {
    hide SignsOfAll, SignsOfAlts, ContextSigns;
    var front := ContextSigns(f.context) + SignsOfAlts(f.alts);
    assert front + (SignsOfAll(f.factors) + [t]) == front + SignsOfAll(f.factors) + [t];
  }

  lemma TimesSigns(f: Frame, q: QuantifierText)
    requires f.factors != []
    ensures FrameSigns(Requantify(f, q)) == FrameSigns(f) + [Times(q)]
  {
    hide FrameSigns, SignsOfAll, SignsOfAlts;
    var front, last := f.factors[..|f.factors| - 1], f.factors[|f.factors| - 1];
    assert f.factors == front + [last];
    LastSigns(front, last);
    LastSigns(front, Quantified(last, q));
    assert SignsOf(Quantified(last, q)) == SignsOf(last) + [Times(q)];
    assert SignsOfAll(front) + (SignsOf(last) + [Times(q)]) == SignsOfAll(front) + SignsOf(last) + [Times(q)];
    FactorSigns(f, Requantify(f, q), Times(q));
  }

  lemma BarSigns(f: Frame)
    requires f.factors != [] && FrameOk(f)
    ensures IsAlt(Row(f.factors))
    ensures FrameSigns(Frame(f.context, f.alts + [Row(f.factors)], [])) == FrameSigns(f) + [Bar]
  {
    hide SignsOf, SignsOfAlts, ContextSigns, Row, IsAlt, IsFactor, FrameSigns;
    RowIs(f.factors);
    LastSigns(f.alts, Row(f.factors));
    BarGlue(f, SignsOf(Row(f.factors)));
  }

  lemma BarGlue(f: Frame, row: seq<Sign>)
    requires f.factors != [] && row == SignsOfAll(f.factors)
    requires SignsOfAlts(f.alts + [Row(f.factors)]) == SignsOfAlts(f.alts) + row + [Bar]
    ensures FrameSigns(Frame(f.context, f.alts + [Row(f.factors)], [])) == FrameSigns(f) + [Bar]
  {
    hide SignsOfAlts, ContextSigns, Row;
    var base, alts := ContextSigns(f.context), SignsOfAlts(f.alts);
    assert base + (alts + row + [Bar]) + [] == base + alts + row + [Bar];
  }

  lemma CloseSigns(f: Frame)
    requires f.factors != [] && FrameOk(f) && f.context.Inside?
    ensures var o := f.context.outer; FrameSigns(o.(factors := o.factors + [Group(Whole(f))])) == FrameSigns(f) + [Close]
    ensures Written(Whole(f))
  {
    hide FrameSigns, FrameOk, SignsOfAll, SignsOfAlts, Whole, Written;
    var o := f.context.outer;
    WholeBehind(f);
    LastSigns(o.factors, Group(Whole(f)));
    GroupGlue(o, Whole(f));
  }

  lemma GroupGlue(o: Frame, b: Pattern)
    requires SignsOfAll(o.factors + [Group(b)]) == SignsOfAll(o.factors) + SignsOf(Group(b))
    ensures FrameSigns(o.(factors := o.factors + [Group(b)])) == FrameSigns(o) + [Open] + SignsOf(b) + [Close]
  {
    hide SignsOfAll, SignsOfAlts, ContextSigns;
    var front, all := ContextSigns(o.context) + SignsOfAlts(o.alts), SignsOfAll(o.factors);
    assert SignsOf(Group(b)) == [Open] + SignsOf(b) + [Close];
    assert front + (all + ([Open] + SignsOf(b) + [Close])) == front + all + [Open] + SignsOf(b) + [Close];
  }

  lemma WrittenSigns(f: Frame, t: Sign, g: Frame)
    requires FrameOk(f) && Follows(f, t, g)
    ensures FrameOk(g) && FrameSigns(g) == FrameSigns(f) + [t]
  {
    hide AtomWritten, QuantifierWritten, FrameSigns, SignsOfAll, SignsOfAlts, Row, Whole;
    match t
    case Operand(a) =>
      LastSigns(f.factors, Atomic(a));
      FactorSigns(f, g, t);
    case Times(q) =>
      TimesSigns(f, q);
    case Open =>
      BlankGlue(f);
    case Bar =>
      BarSigns(f);
    case Close =>
      CloseSigns(f);
  }

  lemma BlankGlue(f: Frame)
    ensures FrameSigns(Frame(Inside(f), [], [])) == FrameSigns(f) + [Open]
  {
    assert FrameSigns(f) + [Open] + [] + [] == FrameSigns(f) + [Open];
  }

  /** A quantifier in place has a factor in front of it. */
  lemma TimesInPlace(f: Frame, ts: seq<Sign>)
    requires ts != [] && ts[0].Times? && InPlace(FrameSigns(f) + ts)
    ensures f.factors != []
  {
    hide FrameSigns;
    var all, n := FrameSigns(f) + ts, |FrameSigns(f)|;
    assert all[n] == ts[0] && (n > 0 ==> all[n - 1] == FrameSigns(f)[n - 1]);
    if f.factors == [] {
      BlankSigns(f);
    }
  }

  lemma {:induction false} Completes(f: Frame, ts: seq<Sign>) returns (p: Pattern)
    requires FrameOk(f) && AllWritten(ts) && Bare(ts) == ts && InPlace(FrameSigns(f) + ts)
    requires AllTaken(FrameConfig(f), ts).Some? && Finish(AllTaken(FrameConfig(f), ts).value).Compiled?
    ensures Written(p) && SignsOf(p) == FrameSigns(f) + ts
    decreases |ts|
  {
    hide FrameConfig, FrameSigns, FrameOk, Taken, Finish, Whole, Row, SignWritten;
    if ts == [] {
      PatternEnds(f);
      WholeBehind(f);
      p := Whole(f);
      OutermostSigns(f);
      assert FrameSigns(f) + ts == FrameSigns(f);
    } else {
      var t := ts[0];
      BareIsShort(ts[1..]);
      assert Bare(ts)[1..] == ts[1..];
      var g := NextFrame(f, ts);
      WrittenSigns(f, t, g);
      assert FrameSigns(g) + ts[1..] == FrameSigns(f) + ts;
      p := Completes(g, ts[1..]);
    }
  }

  lemma OutermostSigns(f: Frame)
    requires f.factors != [] && f.context.Outermost? && ContextSigns(f.context) + SignsOf(Whole(f)) == FrameSigns(f)
    ensures SignsOf(Whole(f)) == FrameSigns(f)
  {
    hide FrameSigns, Whole, SignsOf;
    assert [] + SignsOf(Whole(f)) == SignsOf(Whole(f));
  }

  lemma NextFrame(f: Frame, ts: seq<Sign>) returns (g: Frame)
    requires FrameOk(f) && ts != [] && AllWritten(ts) && Bare(ts) == ts && InPlace(FrameSigns(f) + ts)
    requires AllTaken(FrameConfig(f), ts).Some? && Finish(AllTaken(FrameConfig(f), ts).value).Compiled?
    ensures Taken(FrameConfig(f), ts[0]) == Some(FrameConfig(g))
    ensures Follows(f, ts[0], g)
  {
    hide FrameConfig, FrameSigns, FrameOk, Taken, Finish, Whole, Row, AtomWritten, QuantifierWritten;
    BareIsShort(ts[1..]);
    assert SignWritten(ts[0]);
    match ts[0] {
      case Operand(a) =>
        OperandTaken(f, a);
        g := f.(factors := f.factors + [Atomic(a)]);
      case Times(q) =>
        TimesInPlace(f, ts);
        TimesTaken(f, q);
        g := Requantify(f, q);
      case Open =>
        OpenTaken(f);
        g := Frame(Inside(f), [], []);
      case Bar =>
        AlternativeEnds(f, ts);
        BarTaken(f);
        g := Frame(f.context, f.alts + [Row(f.factors)], []);
      case Close =>
        AlternativeEnds(f, ts);
        if f.context.Outermost? {
          NothingToClose(f);
        }
        CloseTaken(f);
        g := f.context.outer.(factors := f.context.outer.factors + [Group(Whole(f))]);
      case _ =>
        assert false;
        g := f;
    }
  }

  // ----- Every pattern is accepted -----

  lemma SignsJoin(a: seq<Sign>, b: seq<Sign>)
    ensures SignsText(a + b) == SignsText(a) + SignsText(b)
    ensures AllWritten(a + b) <==> AllWritten(a) && AllWritten(b)
    ensures AllFit(a + b) <==> AllFit(a) && AllFit(b)
    ensures Bare(a + b) == Bare(a) + Bare(b)
  {
    hide SignText, SignWritten, SignFits;
    TextJoins(a, b);
    BareJoins(a, b);
    var c := a + b;
    assert forall k :: 0 <= k < |a| ==> a[k] == c[k];
    assert forall k :: 0 <= k < |b| ==> b[k] == c[|a| + k];
  }

  lemma {:induction false} TextJoins(a: seq<Sign>, b: seq<Sign>)
    ensures SignsText(a + b) == SignsText(a) + SignsText(b)
    decreases |a|
  {
    hide SignText;
    if a == [] {
      assert a + b == b;
    } else {
      TextJoins(a[1..], b);
      assert (a + b)[1..] == a[1..] + b;
    }
  }

  lemma BareNext(t: Sign, rest: seq<Sign>)
    ensures Bare([t] + rest) == (if t.Begin? || t.End? then [] else [t]) + Bare(rest)
  {
    assert ([t] + rest)[1..] == rest;
  }

  lemma {:induction false} BareJoins(a: seq<Sign>, b: seq<Sign>)
    ensures Bare(a + b) == Bare(a) + Bare(b)
    decreases |a|
  {
    if a == [] {
      assert a + b == b;
    } else {
      hide Bare;
      BareJoins(a[1..], b);
      BareNext(a[0], a[1..]);
      BareNext(a[0], a[1..] + b);
      assert a == [a[0]] + a[1..] && a + b == [a[0]] + (a[1..] + b);
      Together(if a[0].Begin? || a[0].End? then [] else [a[0]], Bare(a[1..]), Bare(b));
    }
  }

  lemma OneSign(t: Sign)
    ensures SignsText([t]) == SignText(t)
    ensures SignWritten(t) ==> AllWritten([t])
    ensures SignFits(t) ==> AllFit([t])
    ensures !t.Begin? && !t.End? ==> Bare([t]) == [t]
  {
    assert SignsText([t]) == SignText(t) + [];
  }

  ghost predicate GoodSigns(p: Pattern) {
    var ts := SignsOf(p);
    SignsText(ts) == TextOf(p) && AllWritten(ts) && AllFit(ts) && Bare(ts) == ts
  }

  /** The signs of a pattern spell its text. */
  lemma {:induction false} SignsOfPattern(p: Pattern)
    requires Written(p)
    ensures GoodSigns(p)
    decreases p
  {
    hide SignsText, AllWritten, AllFit, Bare, AtomWritten, AtomTextOf, QuantifierTextOf, DigitsWritten, NumberWritten;
    match p
    case Atomic(a) =>
      OneSign(Operand(a));
    case Group(b) =>
      SignsOfPattern(b);
      OneSign(Open);
      OneSign(Close);
      SignsJoin([Open], SignsOf(b));
      SignsJoin([Open] + SignsOf(b), [Close]);
    case Quantified(b, q) =>
      SignsOfPattern(b);
      QuantifierSign(q);
      OneSign(Times(q));
      SignsJoin(SignsOf(b), [Times(q)]);
    case Sequence(a, r) =>
      SignsOfPattern(a);
      SignsOfPattern(r);
      SignsJoin(SignsOf(a), SignsOf(r));
    case Choice(a, r) =>
      SignsOfPattern(a);
      SignsOfPattern(r);
      OneSign(Bar);
      SignsJoin(SignsOf(a), [Bar]);
      SignsJoin(SignsOf(a) + [Bar], SignsOf(r));
  }

  lemma QuantifierSign(q: QuantifierText)
    requires QuantifierWritten(q)
    ensures SignWritten(Times(q)) && SignFits(Times(q))
  {
    hide Number;
  }

  ghost predicate Settled(ts: seq<Sign>) {
    ts != [] && InPlace(ts) && !ts[0].Times? && !ts[|ts| - 1].Open? && !ts[|ts| - 1].Bar?
  }

  lemma SettledJoin(a: seq<Sign>, b: seq<Sign>)
    requires Settled(a) && Settled(b)
    ensures Settled(a + b)
  {
    var c := a + b;
    forall k | 0 <= k < |c| && c[k].Times? ensures k > 0 && !c[k - 1].Open? && !c[k - 1].Bar? {
      if k > |a| {
        assert b[k - |a|].Times? && c[k - 1] == b[k - |a| - 1];
      } else if k < |a| {
        assert a[k].Times? && c[k - 1] == a[k - 1];
      }
    }
  }

  lemma SettledBar(a: seq<Sign>, b: seq<Sign>)
    requires Settled(a) && Settled(b)
    ensures Settled(a + [Bar] + b)
  {
    var c := a + [Bar] + b;
    forall k | 0 <= k < |c| && c[k].Times? ensures k > 0 && !c[k - 1].Open? && !c[k - 1].Bar? {
      if k > |a| {
        assert b[k - |a| - 1].Times? && c[k - 1] == b[k - |a| - 2];
      } else if k < |a| {
        assert a[k].Times? && c[k - 1] == a[k - 1];
      }
    }
  }

  lemma SettledGroup(b: seq<Sign>)
    requires Settled(b)
    ensures Settled([Open] + b + [Close])
  {
    var c := [Open] + b + [Close];
    forall k | 0 <= k < |c| && c[k].Times? ensures k > 0 && !c[k - 1].Open? && !c[k - 1].Bar? {
      assert b[k - 1].Times? && c[k - 1] == b[k - 2];
    }
  }

  /** In a pattern every quantifier comes behind something to quantify. */
  lemma {:induction false} PatternsInPlace(p: Pattern)
    ensures Settled(SignsOf(p))
    decreases p
  {
    hide Settled;
    match p
    case Atomic(a) => SettledAtom(a);
    case Group(b) => PatternsInPlace(b); SettledGroup(SignsOf(b));
    case Quantified(b, q) => PatternsInPlace(b); SettledTimes(SignsOf(b), q);
    case Sequence(a, r) => PatternsInPlace(a); PatternsInPlace(r); SettledJoin(SignsOf(a), SignsOf(r));
    case Choice(a, r) => PatternsInPlace(a); PatternsInPlace(r); SettledBar(SignsOf(a), SignsOf(r));
  }

  lemma SettledAtom(a: AtomText)
    ensures Settled([Operand(a)])
  {
  }

  lemma SettledTimes(b: seq<Sign>, q: QuantifierText)
    requires Settled(b)
    ensures Settled(b + [Times(q)])
  {
    var c := b + [Times(q)];
    forall k | 0 <= k < |c| && c[k].Times? ensures k > 0 && !c[k - 1].Open? && !c[k - 1].Bar? {
      if k < |b| {
        assert b[k].Times? && c[k - 1] == b[k - 1];
      }
    }
  }

  lemma PatternTaken(p: Pattern)
    requires Written(p)
    ensures AllTaken(START, SignsOf(p)).Some? && Finish(AllTaken(START, SignsOf(p)).value) == Compiled(TreeOf(p), false, false)
  {
    hide AllTaken, Finish, TreeOf, SignsOf, AllWritten, AllFit, SignsText, Bare, Written, WellFormed;
    WrittenIsWellFormed(p);
    SignsOfPattern(p);
    ReadBack(p, false, false);
    assert AnchoredText(p, false, false) == TextOf(p);
    assert TextOf(p)[0..] == TextOf(p);
    RunTaken(TextOf(p), 0, START, SignsOf(p));
  }

  lemma SpelledIsRead(text: Text, ts: seq<Sign>, p: Pattern)
    requires AllWritten(ts) && AllFit(ts) && text == SignsText(ts) && Spells(ts, p)
    ensures Read(text) == Compiled(TreeOf(p), Begin in ts, End in ts)
  {
    hide AllTaken, Finish, TreeOf, SignsOf, AllWritten, AllFit, SignsText, Bare, Written;
    PatternTaken(p);
    SignsOfPattern(p);
    assert text[0..] == text;
    RunTaken(text, 0, START, ts);
    AnchorsAside(START, ts);
    FlagsKeptAll(START, SignsOf(p), Begin in ts, End in ts);
    FinishFlagged(AllTaken(START, SignsOf(p)).value, Begin in ts, End in ts);
  }

  lemma ReadIsSpelled(text: Text, ts: seq<Sign>) returns (p: Pattern)
    requires AllWritten(ts) && AllFit(ts) && text == SignsText(ts) && Read(text).Compiled? && InPlace(Bare(ts))
    ensures Spells(ts, p)
  {
    hide AllTaken, Finish, SignsOf, AllWritten, AllFit, SignsText, Bare, Written, InPlace;
    assert text[0..] == text;
    RunTaken(text, 0, START, ts);
    AnchorsAside(START, ts);
    BareIsBare(ts);
    var f := Frame(Outermost(Begin in ts, End in ts), [], []);
    StartFrame(f);
    assert [] + Bare(ts) == Bare(ts);
    p := Completes(f, Bare(ts));
  }

  lemma StartFrame(f: Frame)
    requires f.context.Outermost? && f.alts == [] && f.factors == []
    ensures FrameConfig(f) == Flagged(START, f.context.begin, f.context.end) && FrameSigns(f) == [] && FrameOk(f)
  {
    assert [] + TreesOf([]) + TreesOf([]) == [];
    assert [] + Bars(0) + Concats(0) == [];
  }

  lemma {:induction false} BareIsBare(ts: seq<Sign>)
    ensures Bare(Bare(ts)) == Bare(ts) && (AllWritten(ts) ==> AllWritten(Bare(ts)))
    decreases |ts|
  {
    hide SignWritten;
    if ts != [] {
      BareIsBare(ts[1..]);
      assert Bare(ts) != Bare(ts[1..]) ==> Bare(ts)[1..] == Bare(ts[1..]);
      if AllWritten(ts) {
        assert SignWritten(ts[0]) && AllWritten(ts[1..]);
      }
    }
  }

  /**
   * A row of signs is accepted as the pattern it spells, with the anchors it holds anywhere; where every quantifier
   * is in place, nothing else is accepted, and a quantifier that is not in place spells no pattern.
   */
  lemma AcceptedIsPattern(text: Text, ts: seq<Sign>)
    requires AllWritten(ts) && AllFit(ts) && text == SignsText(ts)
    ensures forall p :: Spells(ts, p) ==> Read(text) == Compiled(TreeOf(p), Begin in ts, End in ts)
    ensures Read(text).Compiled? && InPlace(Bare(ts)) <==> exists p :: Spells(ts, p)
  {
    hide TreeOf, SignsOf, AllWritten, AllFit, SignsText, Bare, Written, InPlace, Read;
    forall p | Spells(ts, p)
      ensures Read(text) == Compiled(TreeOf(p), Begin in ts, End in ts) && InPlace(Bare(ts))
    {
      SpelledIsRead(text, ts, p);
      PatternsInPlace(p);
    }
    if Read(text).Compiled? && InPlace(Bare(ts)) {
      var p := ReadIsSpelled(text, ts);
    }
  }

  lemma StarOfFirst(a: Regex, b: Regex)
    ensures Finish(Config([Repeat(a, ZeroOrMore), b], [OpAlternation], [1], false, false)) ==
            Compiled(Or(Repeat(a, ZeroOrMore), b), false, false)
  {
    var r := Repeat(a, ZeroOrMore);
    EvaluateTop([], r, b, [], OpAlternation, AtBottom);
    assert [] + [r] + [b] == [r, b] && [] + [OpAlternation] == [OpAlternation] && [] + [Or(r, b)] == [Or(r, b)];
    assert Reduce([Or(r, b)], [], AtBottom) == Reduced([Or(r, b)], []);
  }

  /** "a|*b" is accepted as if the star were written in front of the bar. */
  lemma MisplacedStarExample()
    ensures Read(['a' as nat, '|' as nat, '*' as nat, 'b' as nat]) ==
            Compiled(Or(Repeat(Sym(Literal('a' as nat)), ZeroOrMore), Sym(Literal('b' as nat))), false, false)
  {
    hide Finish;
    var text: Text := ['a' as nat, '|' as nat, '*' as nat, 'b' as nat];
    var a, b := Sym(Literal('a' as nat)), Sym(Literal('b' as nat));
    StarOfFirst(a, b);
    MisplacedSteps(text, a, b);
    hide Run;
    RunStep(text, 3, Config([Repeat(a, ZeroOrMore)], [OpAlternation], [0], false, false),
            4, Config([Repeat(a, ZeroOrMore), b], [OpAlternation], [1], false, false));
    RunStep(text, 2, Config([a], [OpAlternation], [0], false, false),
            3, Config([Repeat(a, ZeroOrMore)], [OpAlternation], [0], false, false));
    RunStep(text, 1, Config([a], [], [1], false, false), 2, Config([a], [OpAlternation], [0], false, false));
    RunStep(text, 0, START, 1, Config([a], [], [1], false, false));
  }

  lemma MisplacedSteps(text: Text, a: Regex, b: Regex)
    requires text == ['a' as nat, '|' as nat, '*' as nat, 'b' as nat]
    requires a == Sym(Literal('a' as nat)) && b == Sym(Literal('b' as nat))
    ensures Step(text, 0, START) == Running(1, Config([a], [], [1], false, false))
    ensures Step(text, 1, Config([a], [], [1], false, false)) == Running(2, Config([a], [OpAlternation], [0], false, false))
    ensures Step(text, 2, Config([a], [OpAlternation], [0], false, false)) ==
            Running(3, Config([Repeat(a, ZeroOrMore)], [OpAlternation], [0], false, false))
    ensures Step(text, 3, Config([Repeat(a, ZeroOrMore)], [OpAlternation], [0], false, false)) ==
            Running(4, Config([Repeat(a, ZeroOrMore), b], [OpAlternation], [1], false, false))
    ensures Run(text, 4, Config([Repeat(a, ZeroOrMore), b], [OpAlternation], [1], false, false)) ==
            Finish(Config([Repeat(a, ZeroOrMore), b], [OpAlternation], [1], false, false))
  {
    hide Finish;
    assert [a][..0] + [Repeat(a, ZeroOrMore)] == [Repeat(a, ZeroOrMore)];
  }

  // ----- Numbers that do not fit -----

  /** The digit in front of position `k` is refused: more than '5', behind a number of at least 429496729 in 32 bits. */
  predicate Overflows(digits: seq<nat>, k: nat)
    requires k < |digits|
  {
    digits[k] > 0x35 && 10 * (Number(digits[..k]) % 0x1_0000_0000) + (digits[k] - 0x30) >= 0x1_0000_0000
  }

  lemma {:induction false} LoopIs(text: Text, i: nat, digits: Text, k: nat)
    requires At(text, i, digits) && DigitsWritten(digits) && !IsDigit(Peek(text, i + |digits|)) && k <= |digits|
    ensures var r := UnsignedLoop(text, i + k, Number(digits[..k]) % 0x1_0000_0000);
            if exists j :: k <= j < |digits| && Overflows(digits, j) then r == None
            else r == Some((Number(digits) % 0x1_0000_0000, i + |digits|))
    decreases |digits| - k
  {
    hide Number, At;
    AtFits(text, i, digits);
    if k == |digits| {
      assert digits[..k] == digits;
    } else {
      DigitAt(text, i, digits, k);
      NumberNext(digits, k);
      LoopIs(text, i, digits, k + 1);
      var r := Number(digits[..k]) % 0x1_0000_0000;
      assert Overflows(digits, k) <==> r >= 429496729 && digits[k] > '5' as nat;
      if j :| k <= j < |digits| && Overflows(digits, j) {
        assert j == k || (k + 1 <= j < |digits| && Overflows(digits, j));
      }
    }
  }

  lemma DigitAt(text: Text, i: nat, digits: Text, k: nat)
    requires At(text, i, digits) && k < |digits|
    ensures i + k < |text| && text[i + k] == digits[k]
  {
    assert text[i..i + |digits|][k] == text[i + k];
  }

  lemma NumberNext(digits: Text, k: nat)
    requires k < |digits| && digits[k] >= 0x30
    ensures Number(digits[..k + 1]) == 10 * Number(digits[..k]) + (digits[k] as nat - 0x30)
    ensures Number(digits[..k + 1]) % 0x1_0000_0000 == (Number(digits[..k]) % 0x1_0000_0000 * 10 + (digits[k] as nat - 0x30)) % 0x1_0000_0000
  {
    assert digits[..k + 1][..k] == digits[..k];
  }

  /** The exact result for every numeral: refused at a digit that overflows, otherwise its value in 32 bits. */
  lemma NumeralIs(text: Text, i: nat, digits: Text)
    requires At(text, i, digits) && DigitsWritten(digits) && !IsDigit(Peek(text, i + |digits|))
    ensures ParseUnsigned(text, i) ==
            if exists k :: 0 <= k < |digits| && Overflows(digits, k) then None
            else Some((Number(digits) % 0x1_0000_0000, i + |digits|))
  {
    hide UnsignedLoop, At, Overflows;
    DigitAt(text, i, digits, 0);
    LoopIs(text, i, digits, 0);
    assert Number(digits[..0]) == 0;
  }
}
