/**
 * The pattern reader of internal/regex.h as a function of the pattern text:
 * the same operand, operator and atom-count stacks, with trees in place of fragments.
 */
module RegexPattern {
  import opened Options
  import opened Texts
  import opened RegexLanguage

  type Text = seq<CodePoint>

  const INFINITY: nat := 0xFFFF_FFFF

  datatype Operator = OpZeroOrOne | OpZeroOrMore | OpOneOrMore | OpConcatenation | OpAlternation | OpLeftParenthesis

  /** How reading a pattern ends: with a tree, without one, or in a failed assertion of the reader. */
  datatype Outcome = Compiled(e: Regex, anchorBegin: bool, anchorEnd: bool) | Invalid | AssertionFailed

  datatype Trees = Trees(ts: seq<Regex>) | Refused | Asserted

  datatype Config = Config(trees: seq<Regex>, ops: seq<Operator>, counts: seq<nat>, anchorBegin: bool, anchorEnd: bool)

  function Peek(text: Text, i: nat): nat {
    if i < |text| then text[i] else 0
  }

  // ----- Lexical pieces -----

  /** ParseUnsigned's loop; the product wraps at 32 bits, as `unsigned` does. */
  function UnsignedLoop(text: Text, i: nat, r: nat): (res: Option<(nat, nat)>)
    requires r <= INFINITY
    decreases |text| - i
    ensures res.Some? ==> i <= res.value.1 && res.value.0 <= INFINITY
  {
    if !IsDigit(Peek(text, i)) then Some((r, i))
    else if r >= 429496729 && Peek(text, i) > '5' as nat then None
    else UnsignedLoop(text, i + 1, (r * 10 + (text[i] - '0' as nat)) % 0x1_0000_0000)
  }

  function ParseUnsigned(text: Text, i: nat): (res: Option<(nat, nat)>)
    ensures res.Some? ==> i <= res.value.1 && res.value.0 <= INFINITY
  {
    if IsDigit(Peek(text, i)) then UnsignedLoop(text, i, 0) else None
  }

  function CharacterEscape(text: Text, i: nat): (res: Option<(CodePoint, nat)>)
    ensures res.Some? ==> i < res.value.1 <= |text|
  {
    if i >= |text| then None
    else if text[i] in ESCAPED_LITERALS then Some((text[i], i + 1))
    else if text[i] == 'f' as nat then Some((0x0C, i + 1))
    else if text[i] == 'n' as nat then Some((0x0A, i + 1))
    else if text[i] == 'r' as nat then Some((0x0D, i + 1))
    else if text[i] == 't' as nat then Some((0x09, i + 1))
    else if text[i] == 'v' as nat then Some((0x0B, i + 1))
    else None
  }

  const ESCAPED_LITERALS: set<nat> := {
    '^' as nat, '$' as nat, '|' as nat, '(' as nat, ')' as nat, '?' as nat, '*' as nat,
    '+' as nat, '.' as nat, '[' as nat, ']' as nat, '{' as nat, '}' as nat, '\\' as nat
  }

  /** The bracket class from position `i` on, given what was read of it so far. */
  function ScanClass(text: Text, i: nat, begin: bool, negate: bool, step: nat, rs: seq<Range>): (res: Option<(Symbol, nat)>)
    requires step <= 2 && (step > 0 ==> rs != [])
    decreases |text| - i
    ensures res.Some? ==> res.value.0.Class? && res.value.0.ranges != [] && i < res.value.1 <= |text|
  {
    if i >= |text| then None
    else if begin && text[i] == '^' as nat then ScanClass(text, i + 1, false, true, step, rs)
    else if text[i] == ']' as nat then
      if rs == [] then None
      else Some((Class(negate, if step == 2 then rs + [Range('-' as nat, '-' as nat)] else rs), i + 1))
    else
      match ClassChar(text, i)
      case None => None
      case Some((c, j)) =>
        if step == 1 && c == '-' as nat then ScanClass(text, j, false, negate, 2, rs)
        else if step == 2 then ScanClass(text, j, false, negate, 0, rs[|rs| - 1 := rs[|rs| - 1].(hi := c)])
        else ScanClass(text, j, false, negate, 1, rs + [Range(c, c)])
  }

  function ClassChar(text: Text, i: nat): (res: Option<(CodePoint, nat)>)
    requires i < |text|
    ensures res.Some? ==> i < res.value.1 <= |text|
  {
    if text[i] != '\\' as nat then Some((text[i], i + 1))
    else if Peek(text, i + 1) == 'b' as nat then Some((0x08, i + 2))
    else CharacterEscape(text, i + 1)
  }

  // ----- Evaluation on trees -----

  function EvalTrees(ts: seq<Regex>, op: Operator): Trees {
    var n := |ts|;
    match op
    case OpConcatenation => if n >= 2 then Trees(ts[..n - 2] + [Then(ts[n - 2], ts[n - 1])]) else Asserted
    case OpAlternation => if n >= 2 then Trees(ts[..n - 2] + [Or(ts[n - 2], ts[n - 1])]) else Refused
    case OpZeroOrOne => if n >= 1 then Trees(ts[..n - 1] + [Repeat(ts[n - 1], ZeroOrOne)]) else Refused
    case OpZeroOrMore => if n >= 1 then Trees(ts[..n - 1] + [Repeat(ts[n - 1], ZeroOrMore)]) else Refused
    case OpOneOrMore => if n >= 1 then Trees(ts[..n - 1] + [Repeat(ts[n - 1], OneOrMore)]) else Refused
    case OpLeftParenthesis => Refused
  }

  function QuantifierOf(n: nat, m: nat): Quantifier {
    if m == INFINITY then AtLeast(n) else Between(n, m)
  }

  function EvalQuantifierTrees(ts: seq<Regex>, n: nat, m: nat): Trees
    requires n <= m
  {
    if |ts| == 0 then Asserted
    else if n == 0 && m == 0 then Refused
    else Trees(ts[..|ts| - 1] + [Repeat(ts[|ts| - 1], QuantifierOf(n, m))])
  }

  /** Which operators on top of the stack are evaluated at '|', at ')' and at the end. */
  datatype Stop = AtAlternation | AtParenthesis | AtBottom

  predicate Pops(stop: Stop, op: Operator) {
    match stop
    case AtAlternation => op != OpAlternation && op != OpLeftParenthesis
    case AtParenthesis => op != OpLeftParenthesis
    case AtBottom => true
  }

  datatype Reduced = Reduced(trees: seq<Regex>, ops: seq<Operator>) | Stopped(outcome: Outcome)

  function Reduce(ts: seq<Regex>, ops: seq<Operator>, stop: Stop): Reduced
    decreases |ops|
  {
    var n := |ops|;
    if n == 0 || !Pops(stop, ops[n - 1]) then Reduced(ts, ops)
    else
      match EvalTrees(ts, ops[n - 1])
      case Trees(ts') => Reduce(ts', ops[..n - 1], stop)
      case Refused => Stopped(Invalid)
      case Asserted => Stopped(AssertionFailed)
  }

  datatype Progress = Running(i: nat, cfg: Config) | Halted(outcome: Outcome)

  /** ImplicitConcatenation after an atom. */
  function Atom(cfg: Config, i: nat): Progress {
    var n := |cfg.counts|;
    if n == 0 then Halted(AssertionFailed)
    else Running(i, cfg.(
      ops := if cfg.counts[n - 1] > 0 then cfg.ops + [OpConcatenation] else cfg.ops,
      counts := cfg.counts[n - 1 := cfg.counts[n - 1] + 1]))
  }

  function PushAtom(cfg: Config, s: Symbol, i: nat): Progress {
    Atom(cfg.(trees := cfg.trees + [Sym(s)]), i)
  }

  function Evaluated(cfg: Config, ts: Trees, i: nat): Progress {
    match ts
    case Trees(ts') => Running(i, cfg.(trees := ts'))
    case Refused => Halted(Invalid)
    case Asserted => Halted(AssertionFailed)
  }

  function StepBar(cfg: Config, i: nat): Progress {
    match Reduce(cfg.trees, cfg.ops, AtAlternation)
    case Stopped(o) => Halted(o)
    case Reduced(ts, ops) =>
      if |cfg.counts| == 0 then Halted(AssertionFailed)
      else Running(i, cfg.(trees := ts, ops := ops + [OpAlternation], counts := cfg.counts[|cfg.counts| - 1 := 0]))
  }

  function StepClose(cfg: Config, i: nat): Progress {
    match Reduce(cfg.trees, cfg.ops, AtParenthesis)
    case Stopped(o) => Halted(o)
    case Reduced(ts, ops) =>
      if |ops| == 0 then Halted(Invalid)
      else if |cfg.counts| == 0 then Halted(AssertionFailed)
      else Atom(cfg.(trees := ts, ops := ops[..|ops| - 1], counts := cfg.counts[..|cfg.counts| - 1]), i)
  }

  /** `{n}`, `{n,}` or `{n,m}`, from the position after the brace. */
  function StepBrace(text: Text, i: nat, cfg: Config): (p: Progress)
    ensures p.Running? ==> i < p.i
  {
    match ParseUnsigned(text, i)
    case None => Halted(Invalid)
    case Some((n, j)) =>
      if Peek(text, j) != ',' as nat then StepBraceEnd(text, j, cfg, n, n)
      else if Peek(text, j + 1) == '}' as nat then StepBraceEnd(text, j + 1, cfg, n, INFINITY)
      else
        match ParseUnsigned(text, j + 1)
        case None => Halted(Invalid)
        case Some((m, k)) => if m < n then Halted(Invalid) else StepBraceEnd(text, k, cfg, n, m)
  }

  function StepBraceEnd(text: Text, i: nat, cfg: Config, n: nat, m: nat): (p: Progress)
    requires n <= m
    ensures p.Running? ==> i < p.i
  {
    match EvalQuantifierTrees(cfg.trees, n, m)
    case Refused => Halted(Invalid)
    case Asserted => Halted(AssertionFailed)
    case Trees(ts) => if Peek(text, i) != '}' as nat then Halted(Invalid) else Running(i + 1, cfg.(trees := ts))
  }

  /** One turn of the reader's loop. */
  function Step(text: Text, i: nat, cfg: Config): (p: Progress)
    requires i < |text|
    ensures p.Running? ==> i < p.i
  {
    var c := text[i];
    if c == '^' as nat then Running(i + 1, cfg.(anchorBegin := true))
    else if c == '$' as nat then Running(i + 1, cfg.(anchorEnd := true))
    else if c == '|' as nat then StepBar(cfg, i + 1)
    else if c == '(' as nat then
      Running(i + 1, cfg.(ops := cfg.ops + [OpLeftParenthesis], counts := cfg.counts + [0]))
    else if c == ')' as nat then StepClose(cfg, i + 1)
    else if c == '?' as nat then Evaluated(cfg, EvalTrees(cfg.trees, OpZeroOrOne), i + 1)
    else if c == '*' as nat then Evaluated(cfg, EvalTrees(cfg.trees, OpZeroOrMore), i + 1)
    else if c == '+' as nat then Evaluated(cfg, EvalTrees(cfg.trees, OpOneOrMore), i + 1)
    else if c == '{' as nat then StepBrace(text, i + 1, cfg)
    else if c == '.' as nat then PushAtom(cfg, AnyChar, i + 1)
    else if c == '[' as nat then
      match ScanClass(text, i + 1, true, false, 0, [])
      case None => Halted(Invalid)
      case Some((s, j)) => PushAtom(cfg, s, j)
    else if c == '\\' as nat then
      match CharacterEscape(text, i + 1)
      case None => Halted(Invalid)
      case Some((d, j)) => PushAtom(cfg, Literal(d), j)
    else PushAtom(cfg, Literal(c), i + 1)
  }

  function Finish(cfg: Config): Outcome {
    match Reduce(cfg.trees, cfg.ops, AtBottom)
    case Stopped(o) => o
    case Reduced(ts, _) => if |ts| == 1 then Compiled(ts[0], cfg.anchorBegin, cfg.anchorEnd) else Invalid
  }

  function Run(text: Text, i: nat, cfg: Config): Outcome
    decreases |text| - i
  {
    if i >= |text| then Finish(cfg)
    else
      match Step(text, i, cfg)
      case Halted(o) => o
      case Running(j, cfg') => Run(text, j, cfg')
  }

  const START: Config := Config([], [], [0], false, false)

  function Read(text: Text): Outcome {
    Run(text, 0, START)
  }
}
