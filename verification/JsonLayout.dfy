/** What the two writers' texts look like: no white space at all, or one line for every name, element and closing bracket. */
module JsonLayouts {
  import opened Options
  import opened JsonEvents
  import opened JsonGrammar
  import opened JsonWriters

  // ----- Without white space -----

  /** Brackets, commas and colons, and nothing else around the scalars and names. */
  function Minimal(v: Json): Text
    decreases v, 0
  {
    match v
    case Leaf(s) => ScalarText(s)
    case Array(es) => ['[' as nat] + MinimalElements(es) + [']' as nat]
    case Object(ms) => ['{' as nat] + MinimalMembers(ms) + ['}' as nat]
  }

  function MinimalElements(es: seq<Json>): Text
    decreases es, 1
  {
    if es == [] then [] else if |es| == 1 then Minimal(es[0]) else Minimal(es[0]) + [',' as nat] + MinimalElements(es[1..])
  }

  function MinimalMembers(ms: seq<Member>): Text
    decreases ms, 1
  {
    if ms == [] then []
    else
      var m := Quoted(ms[0].name) + [':' as nat] + Minimal(ms[0].value);
      if |ms| == 1 then m else m + [',' as nat] + MinimalMembers(ms[1..])
  }

  // One step of the printing functions at a time.

  lemma PrintNoElements(f: Format, k: nat, depth: nat)
    requires depth > 0
    ensures PrintElements(f, [], k, depth) == Ending(f, Level(k, true), depth - 1) + [']' as nat]
    ensures PrintMembers(f, [], k, depth) == Ending(f, Level(2 * k, false), depth - 1) + ['}' as nat]
  {
  }

  lemma PrintSomeElements(f: Format, es: seq<Json>, k: nat, depth: nat)
    requires depth > 0 && es != []
    ensures PrintElements(f, es, k, depth) ==
            Mark(Level(k, true)) + Spacing(f, Level(k, true), depth) + (PrintValue(f, es[0], depth) + PrintElements(f, es[1..], k + 1, depth))
  {
  }

  lemma PrintSomeMembers(f: Format, ms: seq<Member>, k: nat, depth: nat)
    requires depth > 0 && ms != []
    ensures PrintMembers(f, ms, k, depth) ==
            Mark(Level(2 * k, false)) + Spacing(f, Level(2 * k, false), depth) +
            (Quoted(ms[0].name) + (Mark(Level(2 * k + 1, false)) + Spacing(f, Level(2 * k + 1, false), depth) +
                                   PrintValue(f, ms[0].value, depth)) +
             PrintMembers(f, ms[1..], k + 1, depth))
  {
    hide Quoted, Spacing;
  }

  lemma Bracketed(a: Text, b: Text, c: Text, d: Text)
    ensures a + (b + (c + d)) == a + (b + c) + d
  {
  }

  lemma {:induction false} CompactText(v: Json, depth: nat)
    ensures PrintValue(Compact, v, depth) == Minimal(v)
    decreases v, 0
  {
    hide PrintElements, PrintMembers, MinimalElements, MinimalMembers;
    match v
    case Leaf(_) =>
    case Array(es) =>
      CompactElements(es, 0, depth + 1);
      Enclosed(['[' as nat], if es == [] then [] else MinimalElements(es), [']' as nat]);
      NoChildren();
    case Object(ms) =>
      CompactMembers(ms, 0, depth + 1);
      Enclosed(['{' as nat], if ms == [] then [] else MinimalMembers(ms), ['}' as nat]);
      NoChildren();
  }

  lemma NoChildren()
    ensures MinimalElements([]) == [] && MinimalMembers([]) == []
  {
  }

  lemma Enclosed(a: Text, b: Text, c: Text)
    ensures a + (([] + b) + c) == a + b + c
  {
    assert [] + b == b;
  }

  function CommaAfter(k: nat): Text {
    if k == 0 then [] else [',' as nat]
  }

  lemma {:induction false} CompactElements(es: seq<Json>, k: nat, depth: nat)
    requires depth > 0
    ensures PrintElements(Compact, es, k, depth) == (if es == [] then [] else CommaAfter(k) + MinimalElements(es)) + [']' as nat]
    decreases es, 1
  {
    hide PrintValue, Minimal, PrintElements;
    if es == [] {
      PrintNoElements(Compact, k, depth);
    } else {
      PrintSomeElements(Compact, es, k, depth);
      CompactText(es[0], depth);
      CompactElements(es[1..], k + 1, depth);
      CompactJoin(CommaAfter(k), Minimal(es[0]), if |es| == 1 then [] else [',' as nat] + MinimalElements(es[1..]), [']' as nat]);
      ElementsJoin(es);
    }
  }

  lemma ElementsJoin(es: seq<Json>)
    requires es != []
    ensures MinimalElements(es) == Minimal(es[0]) + if |es| == 1 then [] else [',' as nat] + MinimalElements(es[1..])
  {
    hide Minimal;
  }

  lemma MembersJoin(ms: seq<Member>)
    requires ms != []
    ensures MinimalMembers(ms) == Quoted(ms[0].name) + [':' as nat] + Minimal(ms[0].value) +
                                  if |ms| == 1 then [] else [',' as nat] + MinimalMembers(ms[1..])
  {
    hide Minimal, Quoted;
  }

  lemma CompactJoin(a: Text, b: Text, c: Text, d: Text)
    ensures a + [] + (b + (c + d)) == a + (b + c) + d
  {
    assert a + [] == a;
  }

  lemma {:induction false} CompactMembers(ms: seq<Member>, k: nat, depth: nat)
    requires depth > 0
    ensures PrintMembers(Compact, ms, k, depth) == (if ms == [] then [] else CommaAfter(k) + MinimalMembers(ms)) + ['}' as nat]
    decreases ms, 1
  {
    hide PrintValue, Minimal, Quoted, PrintMembers, MinimalMembers;
    if ms == [] {
      PrintNoElements(Compact, k, depth);
    } else {
      PrintSomeMembers(Compact, ms, k, depth);
      CompactText(ms[0].value, depth);
      CompactMembers(ms[1..], k + 1, depth);
      ColonOnly(Quoted(ms[0].name), Minimal(ms[0].value));
      CompactJoin(CommaAfter(k), Quoted(ms[0].name) + [':' as nat] + Minimal(ms[0].value),
                  if |ms| == 1 then [] else [',' as nat] + MinimalMembers(ms[1..]), ['}' as nat]);
      MembersJoin(ms);
    }
  }

  lemma ColonOnly(name: Text, value: Text)
    ensures name + ([':' as nat] + [] + value) == name + [':' as nat] + value
  {
    assert [':' as nat] + [] == [':' as nat];
  }

  // ----- In lines -----

  /** A line of text behind the indentation of that many open containers. */
  datatype Line = Line(depth: nat, text: Text)

  /** Every line but the first begins with a line feed and exactly `n` blanks for each open container. */
  function Below(c: nat, n: nat, ls: seq<Line>): Text {
    if ls == [] then [] else ['\n' as nat] + seq(ls[0].depth * n, _ => c) + ls[0].text + Below(c, n, ls[1..])
  }

  function Rendered(c: nat, n: nat, ls: seq<Line>): Text
    requires ls != []
  {
    ls[0].text + Below(c, n, ls[1..])
  }

  /** The second text goes on where the first one ends, on its last line. */
  function Glued(a: seq<Line>, b: seq<Line>): (ls: seq<Line>)
    requires a != [] && b != []
    ensures ls != [] && ls[0].depth == a[0].depth
  {
    var last := a[|a| - 1];
    a[..|a| - 1] + [Line(last.depth, last.text + b[0].text)] + b[1..]
  }

  /** The lines of a value that begins inside `depth` containers. */
  function Layout(v: Json, depth: nat, oneLine: bool): (ls: seq<Line>)
    ensures ls != [] && ls[0].depth == depth
    decreases v, 0
  {
    match v
    case Leaf(s) => [Line(depth, ScalarText(s))]
    case Array(es) =>
      if es == [] then [Line(depth, ['[' as nat, ']' as nat])]
      else if oneLine then Glued(Glued([Line(depth, ['[' as nat])], ElementRow(es, depth + 1, oneLine)), [Line(depth, [']' as nat])])
      else [Line(depth, ['[' as nat])] + ElementLines(es, depth + 1, oneLine) + [Line(depth, [']' as nat])]
    case Object(ms) =>
      if ms == [] then [Line(depth, ['{' as nat, '}' as nat])]
      else [Line(depth, ['{' as nat])] + MemberLines(ms, depth + 1, oneLine) + [Line(depth, ['}' as nat])]
  }

  /** Each element begins a line. */
  function ElementLines(es: seq<Json>, depth: nat, oneLine: bool): (ls: seq<Line>)
    requires es != []
    ensures ls != [] && ls[0].depth == depth
    decreases es, 1
  {
    var first := Layout(es[0], depth, oneLine);
    if |es| == 1 then first else Glued(first, [Line(depth, [',' as nat])]) + ElementLines(es[1..], depth, oneLine)
  }

  /** Each element follows a comma and a blank. */
  function ElementRow(es: seq<Json>, depth: nat, oneLine: bool): (ls: seq<Line>)
    requires es != []
    ensures ls != [] && ls[0].depth == depth
    decreases es, 1
  {
    var first := Layout(es[0], depth, oneLine);
    if |es| == 1 then first else Glued(Glued(first, [Line(depth, [',' as nat, ' ' as nat])]), ElementRow(es[1..], depth, oneLine))
  }

  /** Each name begins a line; a colon, a blank and the value follow it. */
  function MemberLines(ms: seq<Member>, depth: nat, oneLine: bool): (ls: seq<Line>)
    requires ms != []
    ensures ls != [] && ls[0].depth == depth
    decreases ms, 1
  {
    var first := Glued([Line(depth, Quoted(ms[0].name) + [':' as nat, ' ' as nat])], Layout(ms[0].value, depth, oneLine));
    if |ms| == 1 then first else Glued(first, [Line(depth, [',' as nat])]) + MemberLines(ms[1..], depth, oneLine)
  }

  lemma {:induction false} BelowConcat(c: nat, n: nat, a: seq<Line>, b: seq<Line>)
    ensures Below(c, n, a + b) == Below(c, n, a) + Below(c, n, b)
    decreases |a|
  {
    if a == [] {
      assert a + b == b;
    } else {
      assert (a + b)[1..] == a[1..] + b;
      BelowConcat(c, n, a[1..], b);
    }
  }

  /** The line feed and the indentation in front of a line. */
  function Feed(c: nat, n: nat, depth: nat): Text {
    ['\n' as nat] + seq(depth * n, _ => c)
  }

  lemma RenderedConcat(c: nat, n: nat, a: seq<Line>, b: seq<Line>)
    requires a != [] && b != []
    ensures Rendered(c, n, a + b) == Rendered(c, n, a) + Feed(c, n, b[0].depth) + Rendered(c, n, b)
  {
    assert (a + b)[1..] == a[1..] + b;
    BelowConcat(c, n, a[1..], b);
  }

  lemma RenderedGlued(c: nat, n: nat, a: seq<Line>, b: seq<Line>)
    requires a != [] && b != []
    ensures Rendered(c, n, Glued(a, b)) == Rendered(c, n, a) + Rendered(c, n, b)
  {
    var k := |a| - 1;
    var last := a[k];
    var mid := [Line(last.depth, last.text + b[0].text)];
    GluedOne(c, n, last, b);
    if k == 0 {
      assert Glued(a, b) == mid + b[1..] && a == [last];
    } else {
      assert Glued(a, b) == a[..k] + (mid + b[1..]) && a == a[..k] + [last];
      hide Rendered, Feed, Glued;
      RenderedConcat(c, n, a[..k], mid + b[1..]);
      RenderedConcat(c, n, a[..k], [last]);
      Bracketed(Rendered(c, n, a[..k]) + Feed(c, n, last.depth), [], Rendered(c, n, [last]), Rendered(c, n, b));
      assert (mid + b[1..])[0].depth == last.depth;
    }
  }

  lemma GluedOne(c: nat, n: nat, last: Line, b: seq<Line>)
    requires b != []
    ensures Rendered(c, n, [Line(last.depth, last.text + b[0].text)] + b[1..]) == Rendered(c, n, [last]) + Rendered(c, n, b)
  {
    var mid := [Line(last.depth, last.text + b[0].text)];
    assert (mid + b[1..])[1..] == b[1..] && [last][1..] == [];
  }

  lemma RenderedOne(c: nat, n: nat, l: Line)
    ensures Rendered(c, n, [l]) == l.text
  {
    assert [l][1..] == [];
  }

  /** PrettyWriter's text is its lines, for every value, indentation and both forms of arrays. */
  lemma {:induction false} PrettyText(c: nat, n: nat, oneLine: bool, v: Json, depth: nat)
    ensures PrintValue(Pretty(c, n, oneLine), v, depth) == Rendered(c, n, Layout(v, depth, oneLine))
    decreases v, 0
  {
    hide Rendered, Glued, Layout, PrintElements, PrintMembers, ElementRow, ElementLines, MemberLines, Feed;
    match v
    case Leaf(s) =>
      LeafLayout(s, depth, oneLine);
      RenderedOne(c, n, Line(depth, ScalarText(s)));
    case Array(es) =>
      PrettyElements(c, n, oneLine, es, 0, depth + 1);
      ArrayLayout(c, n, oneLine, es, depth);
    case Object(ms) =>
      PrettyMembers(c, n, oneLine, ms, 0, depth + 1);
      ObjectLayout(c, n, oneLine, ms, depth);
  }

  lemma LeafLayout(s: Scalar, depth: nat, oneLine: bool)
    ensures Layout(Leaf(s), depth, oneLine) == [Line(depth, ScalarText(s))]
  {
  }

  lemma ArrayLayout(c: nat, n: nat, oneLine: bool, es: seq<Json>, depth: nat)
    ensures Rendered(c, n, Layout(Array(es), depth, oneLine)) ==
            ['[' as nat] +
            (if es == [] then [']' as nat]
             else if oneLine then Rendered(c, n, ElementRow(es, depth + 1, oneLine)) + [']' as nat]
             else Feed(c, n, depth + 1) + Rendered(c, n, ElementLines(es, depth + 1, oneLine)) + Feed(c, n, depth) + [']' as nat])
  {
    hide Rendered, Feed, ElementRow, ElementLines, Glued;
    var open, close := Line(depth, ['[' as nat]), Line(depth, [']' as nat]);
    RenderedOne(c, n, open);
    RenderedOne(c, n, close);
    if es == [] {
      RenderedOne(c, n, Line(depth, ['[' as nat, ']' as nat]));
    } else if oneLine {
      var row := ElementRow(es, depth + 1, oneLine);
      RenderedGlued(c, n, [open], row);
      RenderedGlued(c, n, Glued([open], row), [close]);
    } else {
      var ls := ElementLines(es, depth + 1, oneLine);
      RenderedConcat(c, n, [open], ls);
      RenderedConcat(c, n, [open] + ls, [close]);
    }
  }

  lemma ObjectLayout(c: nat, n: nat, oneLine: bool, ms: seq<Member>, depth: nat)
    ensures Rendered(c, n, Layout(Object(ms), depth, oneLine)) ==
            ['{' as nat] +
            (if ms == [] then ['}' as nat]
             else Feed(c, n, depth + 1) + Rendered(c, n, MemberLines(ms, depth + 1, oneLine)) + Feed(c, n, depth) + ['}' as nat])
  {
    hide Rendered, Feed, MemberLines;
    var open, close := Line(depth, ['{' as nat]), Line(depth, ['}' as nat]);
    RenderedOne(c, n, open);
    RenderedOne(c, n, close);
    if ms == [] {
      RenderedOne(c, n, Line(depth, ['{' as nat, '}' as nat]));
    } else {
      var ls := MemberLines(ms, depth + 1, oneLine);
      RenderedConcat(c, n, [open], ls);
      RenderedConcat(c, n, [open] + ls, [close]);
    }
  }

  /** What PrettyWriter puts in front of element `k`. */
  function ElementGap(c: nat, n: nat, oneLine: bool, k: nat, depth: nat): Text {
    CommaAfter(k) + if !oneLine then Feed(c, n, depth) else if k == 0 then [] else [' ' as nat]
  }

  /** What it puts behind the last one. */
  function ElementsEnd(c: nat, n: nat, oneLine: bool, depth: nat): Text {
    (if oneLine then [] else Feed(c, n, depth)) + [']' as nat]
  }

  function ElementsText(c: nat, n: nat, oneLine: bool, es: seq<Json>, depth: nat): Text
    requires es != []
  {
    Rendered(c, n, if oneLine then ElementRow(es, depth, oneLine) else ElementLines(es, depth, oneLine))
  }

  lemma ElementsTextNext(c: nat, n: nat, oneLine: bool, es: seq<Json>, k: nat, depth: nat)
    requires es != []
    ensures ElementsText(c, n, oneLine, es, depth) ==
            Rendered(c, n, Layout(es[0], depth, oneLine)) +
            if |es| == 1 then [] else ElementGap(c, n, oneLine, k + 1, depth) + ElementsText(c, n, oneLine, es[1..], depth)
  {
    hide Rendered, Layout, Glued, Feed;
    var first := Layout(es[0], depth, oneLine);
    if |es| > 1 {
      if oneLine {
        var comma := Line(depth, [',' as nat, ' ' as nat]);
        RenderedOne(c, n, comma);
        RenderedGlued(c, n, first, [comma]);
        RenderedGlued(c, n, Glued(first, [comma]), ElementRow(es[1..], depth, oneLine));
      } else {
        var comma := Line(depth, [',' as nat]);
        RenderedOne(c, n, comma);
        RenderedGlued(c, n, first, [comma]);
        RenderedConcat(c, n, Glued(first, [comma]), ElementLines(es[1..], depth, oneLine));
      }
    }
  }

  lemma PrintElementsNext(c: nat, n: nat, oneLine: bool, es: seq<Json>, k: nat, depth: nat)
    requires depth > 0
    ensures var f := Pretty(c, n, oneLine);
            PrintElements(f, es, k, depth) ==
            if es == [] then (if k == 0 then [']' as nat] else ElementsEnd(c, n, oneLine, depth - 1))
            else ElementGap(c, n, oneLine, k, depth) + (PrintValue(f, es[0], depth) + PrintElements(f, es[1..], k + 1, depth))
  {
    hide PrintValue;
    assert Feed(c, n, depth) == NewLine(Pretty(c, n, oneLine), depth);
    assert Feed(c, n, depth - 1) == NewLine(Pretty(c, n, oneLine), depth - 1);
    hide PrintElements, Feed, NewLine;
    if es == [] {
      PrintNoElements(Pretty(c, n, oneLine), k, depth);
    } else {
      PrintSomeElements(Pretty(c, n, oneLine), es, k, depth);
    }
  }

  lemma {:induction false} PrettyElements(c: nat, n: nat, oneLine: bool, es: seq<Json>, k: nat, depth: nat)
    requires depth > 0
    ensures PrintElements(Pretty(c, n, oneLine), es, k, depth) ==
            if es == [] then (if k == 0 then [']' as nat] else ElementsEnd(c, n, oneLine, depth - 1))
            else ElementGap(c, n, oneLine, k, depth) + (ElementsText(c, n, oneLine, es, depth) + ElementsEnd(c, n, oneLine, depth - 1))
    decreases es, 1
  {
    hide PrintValue, PrintElements, ElementsText, ElementGap, ElementsEnd, Layout, Rendered;
    PrintElementsNext(c, n, oneLine, es, k, depth);
    if es != [] {
      PrettyText(c, n, oneLine, es[0], depth);
      PrettyElements(c, n, oneLine, es[1..], k + 1, depth);
      ElementsTextNext(c, n, oneLine, es, k, depth);
      var first, end := PrintValue(Pretty(c, n, oneLine), es[0], depth), ElementsEnd(c, n, oneLine, depth - 1);
      if |es| > 1 {
        Bracketed(first, ElementGap(c, n, oneLine, k + 1, depth), ElementsText(c, n, oneLine, es[1..], depth), end);
      } else {
        assert first + [] == first;
      }
    }
  }

  lemma MembersTextNext(c: nat, n: nat, oneLine: bool, ms: seq<Member>, depth: nat)
    requires ms != []
    ensures Rendered(c, n, MemberLines(ms, depth, oneLine)) ==
            Quoted(ms[0].name) + [':' as nat, ' ' as nat] + Rendered(c, n, Layout(ms[0].value, depth, oneLine)) +
            if |ms| == 1 then [] else [',' as nat] + Feed(c, n, depth) + Rendered(c, n, MemberLines(ms[1..], depth, oneLine))
  {
    hide Rendered, Layout, Glued, Feed, Quoted;
    var name, value := Line(depth, Quoted(ms[0].name) + [':' as nat, ' ' as nat]), Layout(ms[0].value, depth, oneLine);
    RenderedOne(c, n, name);
    RenderedGlued(c, n, [name], value);
    if |ms| > 1 {
      var first, comma := Glued([name], value), Line(depth, [',' as nat]);
      RenderedOne(c, n, comma);
      RenderedGlued(c, n, first, [comma]);
      RenderedConcat(c, n, Glued(first, [comma]), MemberLines(ms[1..], depth, oneLine));
    }
  }

  /** What PrettyWriter puts in front of name `k`. */
  function NameGap(c: nat, n: nat, k: nat, depth: nat): Text {
    CommaAfter(k) + Feed(c, n, depth)
  }

  lemma PrintMembersNext(c: nat, n: nat, oneLine: bool, ms: seq<Member>, k: nat, depth: nat)
    requires depth > 0
    ensures var f := Pretty(c, n, oneLine);
            PrintMembers(f, ms, k, depth) ==
            if ms == [] then (if k == 0 then [] else Feed(c, n, depth - 1)) + ['}' as nat]
            else NameGap(c, n, k, depth) +
                 (Quoted(ms[0].name) + [':' as nat, ' ' as nat] + PrintValue(f, ms[0].value, depth) + PrintMembers(f, ms[1..], k + 1, depth))
  {
    hide PrintValue, Quoted;
    var f := Pretty(c, n, oneLine);
    assert Feed(c, n, depth) == NewLine(f, depth);
    assert Feed(c, n, depth - 1) == NewLine(f, depth - 1);
    hide PrintMembers, Feed, NewLine;
    if ms == [] {
      PrintNoElements(f, k, depth);
    } else {
      PrintSomeMembers(f, ms, k, depth);
      ColonAndBlank(Quoted(ms[0].name), PrintValue(f, ms[0].value, depth));
    }
  }

  lemma ColonAndBlank(name: Text, value: Text)
    ensures name + ([':' as nat] + [' ' as nat] + value) == name + [':' as nat, ' ' as nat] + value
  {
  }

  lemma {:induction false} PrettyMembers(c: nat, n: nat, oneLine: bool, ms: seq<Member>, k: nat, depth: nat)
    requires depth > 0
    ensures PrintMembers(Pretty(c, n, oneLine), ms, k, depth) ==
            if ms == [] then (if k == 0 then [] else Feed(c, n, depth - 1)) + ['}' as nat]
            else NameGap(c, n, k, depth) + (Rendered(c, n, MemberLines(ms, depth, oneLine)) + (Feed(c, n, depth - 1) + ['}' as nat]))
    decreases ms, 1
  {
    hide PrintValue, PrintMembers, MemberLines, Layout, Rendered, Feed, Quoted;
    PrintMembersNext(c, n, oneLine, ms, k, depth);
    if ms != [] {
      PrettyText(c, n, oneLine, ms[0].value, depth);
      PrettyMembers(c, n, oneLine, ms[1..], k + 1, depth);
      MembersTextNext(c, n, oneLine, ms, depth);
      var end := Feed(c, n, depth - 1) + ['}' as nat];
      var first := Quoted(ms[0].name) + [':' as nat, ' ' as nat] + PrintValue(Pretty(c, n, oneLine), ms[0].value, depth);
      if |ms| > 1 {
        Bracketed(first, NameGap(c, n, k + 1, depth), Rendered(c, n, MemberLines(ms[1..], depth, oneLine)), end);
      } else {
        assert first + [] == first;
      }
    }
  }

  /** What a writer makes of the events of a value, in either format. */
  lemma WrittenText(f: Format, v: Json)
    ensures WriteAll(f, Output([], [], false), EventsOf(v)).os ==
            if f.Compact? then Minimal(v) else Rendered(f.indentChar, f.indentCharCount, Layout(v, 0, f.singleLineArray))
  {
    hide Minimal, Rendered, Layout, WriteAll, PrintValue;
    EventsPrint(f, Output([], [], false), v);
    RootText(f, v);
    if f.Compact? {
      CompactText(v, 0);
    } else {
      PrettyText(f.indentChar, f.indentCharCount, f.singleLineArray, v, 0);
    }
  }
}
