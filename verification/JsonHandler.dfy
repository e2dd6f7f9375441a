/** A handler that refuses an event ends the parse there; until then it changes nothing. */
module JsonHandlers {
  import opened Options
  import opened JsonEvents

  /** The same reader with a handler that takes everything. */
  function Willing(r: Reader): Reader {
    r.(accepts := (es: seq<Event>, e: Event) => true)
  }

  /** The first event from number `k` on that the handler refuses, or how many there are. */
  function FirstRefused(r: Reader, events: seq<Event>, k: nat): (n: nat)
    requires k <= |events|
    ensures k <= n <= |events|
    ensures forall j :: k <= j < n ==> r.accepts(events[..j], events[j])
    ensures n < |events| ==> !r.accepts(events[..n], events[n])
    decreases |events| - k
  {
    if k == |events| || !r.accepts(events[..k], events[k]) then k else FirstRefused(r, events, k + 1)
  }

  /** From the events `seen` on: as with the willing handler, or broken off behind the first event refused. */
  ghost predicate Stopped(r: Reader, seen: seq<Event>, willing: Outcome, o: Outcome) {
    && seen <= willing.events
    && var n := FirstRefused(r, willing.events, |seen|);
       o == if n == |willing.events| then willing else Broken(willing.events[..n + 1])
  }

  lemma {:induction false} RefusedEarlier(r: Reader, first: seq<Event>, all: seq<Event>, k: nat)
    requires k <= |first| && first <= all
    ensures var n := FirstRefused(r, first, k); FirstRefused(r, all, k) == if n < |first| then n else FirstRefused(r, all, |first|)
    decreases |first| - k
  {
    if k < |first| {
      assert all[..k] == first[..k] && all[k] == first[k];
      if r.accepts(first[..k], first[k]) {
        RefusedEarlier(r, first, all, k + 1);
      }
    }
  }

  /** A part that is parsed whole, and what follows it. */
  lemma Chain(r: Reader, seen: seq<Event>, first: Outcome, o: Outcome, rest: Outcome, o': Outcome)
    requires Stopped(r, seen, first, o)
    requires if first.Broken? then rest == first else first.events <= rest.events
    requires if o.Broken? then o' == o else Stopped(r, first.events, rest, o')
    ensures Stopped(r, seen, rest, o')
  {
    RefusedEarlier(r, first.events, rest.events, |seen|);
    if FirstRefused(r, first.events, |seen|) < |first.events| {
      var n := FirstRefused(r, first.events, |seen|);
      assert first.events[..n + 1] == rest.events[..n + 1];
    }
  }

  lemma Reported(r: Reader, events: seq<Event>, e: Event, next: nat)
    ensures Stopped(r, events, Report(Willing(r), events, e, next), Report(r, events, e, next))
  {
    var all := events + [e];
    assert all[..|events|] == events;
    assert all[..|events| + 1] == all;
  }

  lemma Unchanged(r: Reader, events: seq<Event>, o: Outcome)
    requires o.events == events
    ensures Stopped(r, events, o, o)
  {
  }

  lemma WillingIsSound(r: Reader)
    requires Sound(r)
    ensures Sound(Willing(r))
  {
    var w := Willing(r);
    assert forall t: Text, i: nat :: w.skip(t, i) == r.skip(t, i) && w.key(t, i) == r.key(t, i) && w.scalar(t, i) == r.scalar(t, i);
  }

  lemma Skipped(r: Reader, text: Text, i: nat, events: seq<Event>)
    requires Sound(r) && Sound(Willing(r)) && i <= |text|
    ensures Skip(Willing(r), text, i, events) == Skip(r, text, i, events) && Skip(r, text, i, events).events == events
  {
  }

  lemma SkippedAfter(r: Reader, text: Text, seen: seq<Event>, willing: Outcome, o: Outcome)
    requires Sound(r) && Sound(Willing(r)) && (willing.Done? ==> willing.next <= |text|) && (o.Done? ==> o.next <= |text|)
    requires Stopped(r, seen, willing, o)
    ensures Stopped(r, seen, SkipAfter(Willing(r), text, willing), SkipAfter(r, text, o))
  {
    hide Sound;
    var rest, o' := SkipAfter(Willing(r), text, willing), SkipAfter(r, text, o);
    if willing.Done? {
      Skipped(r, text, willing.next, willing.events);
      Unchanged(r, willing.events, rest);
    }
    Chain(r, seen, willing, o, rest, o');
  }

  lemma Lexes(r: Reader, events: seq<Event>, l: Lexed)
    ensures Stopped(r, events, Lex(Willing(r), events, l), Lex(r, events, l))
  {
    match l
    case Malformed => Unchanged(r, events, Broken(events));
    case Lexed(e, j) => Reported(r, events, e, j);
  }

  lemma {:induction false} ValueStops(r: Reader, text: Text, i: nat, events: seq<Event>)
    requires Sound(r) && Sound(Willing(r)) && i <= |text|
    ensures Stopped(r, events, ValueAt(Willing(r), text, i, events), ValueAt(r, text, i, events))
    decreases |text| - i, 4
  {
    hide Sound, Stopped, Lex, ObjectAt, ArrayAt;
    if Peek(text, i) == LEFT_CURLY {
      ObjectStops(r, text, i, events);
    } else if Peek(text, i) == LEFT_BRACKET {
      ArrayStops(r, text, i, events);
    } else {
      Lexes(r, events, r.scalar(text, i));
    }
  }

  /** The events only grow. */
  lemma Grows(r: Reader, seen: seq<Event>, willing: Outcome, o: Outcome)
    requires Stopped(r, seen, willing, o)
    ensures seen <= willing.events && (o.Done? ==> o == willing)
  {
  }

  lemma {:induction false} ObjectStops(r: Reader, text: Text, i: nat, events: seq<Event>)
    requires Sound(r) && Sound(Willing(r)) && i < |text|
    ensures Stopped(r, events, ObjectAt(Willing(r), text, i, events), ObjectAt(r, text, i, events))
    decreases |text| - i, 0
  {
    hide Sound, Stopped, SkipAfter, ObjectInitial;
    var w := Willing(r);
    Reported(r, events, StartObject, i + 1);
    SkippedAfter(r, text, events, Report(w, events, StartObject, i + 1), Report(r, events, StartObject, i + 1));
    var first := SkipAfter(w, text, Report(w, events, StartObject, i + 1));
    var o := SkipAfter(r, text, Report(r, events, StartObject, i + 1));
    Grows(r, events, first, o);
    if first.Done? {
      InitialStops(r, text, first.next, first.events);
      Grows(r, first.events, ObjectInitial(w, text, first.next, first.events), ObjectInitial(r, text, first.next, first.events));
    }
    Chain(r, events, first, o, ObjectAt(w, text, i, events), ObjectAt(r, text, i, events));
  }

  lemma {:induction false} InitialStops(r: Reader, text: Text, i: nat, events: seq<Event>)
    requires Sound(r) && Sound(Willing(r)) && i <= |text|
    ensures Stopped(r, events, ObjectInitial(Willing(r), text, i, events), ObjectInitial(r, text, i, events))
    decreases |text| - i, 6
  {
    hide Sound, Stopped, MemberAt;
    Reported(r, events, EndObject(0), i + 1);
    MemberStops(r, text, i, events, 0);
  }

  lemma {:induction false} MemberStops(r: Reader, text: Text, i: nat, events: seq<Event>, count: nat)
    requires Sound(r) && Sound(Willing(r)) && i <= |text|
    ensures Stopped(r, events, MemberAt(Willing(r), text, i, events, count), MemberAt(r, text, i, events, count))
    decreases |text| - i, 5
  {
    hide Stopped, SkipAfter, ColonAt;
    var w := Willing(r);
    if Peek(text, i) != QUOTE {
      Unchanged(r, events, Broken(events));
    } else {
      Lexes(r, events, r.key(text, i));
      var first := SkipAfter(w, text, Lex(w, events, w.key(text, i)));
      var o := SkipAfter(r, text, Lex(r, events, r.key(text, i)));
      SkippedAfter(r, text, events, Lex(w, events, w.key(text, i)), Lex(r, events, r.key(text, i)));
      Grows(r, events, first, o);
      if first.Done? {
        ColonStops(r, text, first.next, first.events, count);
        Grows(r, first.events, ColonAt(w, text, first.next, first.events, count), ColonAt(r, text, first.next, first.events, count));
      }
      Chain(r, events, first, o, MemberAt(w, text, i, events, count), MemberAt(r, text, i, events, count));
    }
  }

  lemma {:induction false} ColonStops(r: Reader, text: Text, i: nat, events: seq<Event>, count: nat)
    requires Sound(r) && Sound(Willing(r)) && i <= |text|
    ensures Stopped(r, events, ColonAt(Willing(r), text, i, events, count), ColonAt(r, text, i, events, count))
    decreases |text| - i, 5
  {
    hide Sound, Stopped, MemberValueAt;
    Unchanged(r, events, Broken(events));
    if Peek(text, i) == COLON {
      Skipped(r, text, i + 1, events);
      if Skip(r, text, i + 1, events).Done? {
        MemberValueStops(r, text, Skip(r, text, i + 1, events).next, events, count);
      }
    }
  }

  lemma {:induction false} MemberValueStops(r: Reader, text: Text, i: nat, events: seq<Event>, count: nat)
    requires Sound(r) && Sound(Willing(r)) && i <= |text|
    ensures Stopped(r, events, MemberValueAt(Willing(r), text, i, events, count), MemberValueAt(r, text, i, events, count))
    decreases |text| - i, 5
  {
    hide Sound, Stopped, SkipAfter, ValueAt, AfterMember;
    var w := Willing(r);
    ValueStops(r, text, i, events);
    SkippedAfter(r, text, events, ValueAt(w, text, i, events), ValueAt(r, text, i, events));
    var first, o := SkipAfter(w, text, ValueAt(w, text, i, events)), SkipAfter(r, text, ValueAt(r, text, i, events));
    Grows(r, events, first, o);
    if first.Done? {
      AfterMemberStops(r, text, first.next, first.events, count);
      Grows(r, first.events, AfterMember(w, text, first.next, first.events, count), AfterMember(r, text, first.next, first.events, count));
    }
    Chain(r, events, first, o, MemberValueAt(w, text, i, events, count), MemberValueAt(r, text, i, events, count));
  }

  lemma {:induction false} AfterMemberStops(r: Reader, text: Text, i: nat, events: seq<Event>, count: nat)
    requires Sound(r) && Sound(Willing(r)) && i <= |text|
    ensures Stopped(r, events, AfterMember(Willing(r), text, i, events, count), AfterMember(r, text, i, events, count))
    decreases |text| - i, 5
  {
    hide Sound, Stopped, AfterMemberComma;
    Unchanged(r, events, Broken(events));
    Reported(r, events, EndObject(count + 1), i + 1);
    if Peek(text, i) == COMMA {
      Skipped(r, text, i + 1, events);
      if Skip(r, text, i + 1, events).Done? {
        var j := Skip(r, text, i + 1, events).next;
        Reported(r, events, EndObject(count + 1), j + 1);
        MemberStops(r, text, j, events, count + 1);
        CommaStops(r, text, j, events, count + 1);
      }
    }
  }

  lemma CommaStops(r: Reader, text: Text, i: nat, events: seq<Event>, count: nat)
    requires Sound(r) && Sound(Willing(r)) && i <= |text|
    requires Stopped(r, events, Report(Willing(r), events, EndObject(count), i + 1), Report(r, events, EndObject(count), i + 1))
    requires Stopped(r, events, MemberAt(Willing(r), text, i, events, count), MemberAt(r, text, i, events, count))
    ensures Stopped(r, events, AfterMemberComma(Willing(r), text, i, events, count), AfterMemberComma(r, text, i, events, count))
  {
    hide Sound, Stopped, MemberAt, Report;
  }

  lemma {:induction false} ArrayStops(r: Reader, text: Text, i: nat, events: seq<Event>)
    requires Sound(r) && Sound(Willing(r)) && i < |text|
    ensures Stopped(r, events, ArrayAt(Willing(r), text, i, events), ArrayAt(r, text, i, events))
    decreases |text| - i, 0
  {
    hide Sound, Stopped, SkipAfter, ArrayInitial;
    var w := Willing(r);
    Reported(r, events, StartArray, i + 1);
    SkippedAfter(r, text, events, Report(w, events, StartArray, i + 1), Report(r, events, StartArray, i + 1));
    var first := SkipAfter(w, text, Report(w, events, StartArray, i + 1));
    var o := SkipAfter(r, text, Report(r, events, StartArray, i + 1));
    Grows(r, events, first, o);
    if first.Done? {
      FirstElementStops(r, text, first.next, first.events);
      Grows(r, first.events, ArrayInitial(w, text, first.next, first.events), ArrayInitial(r, text, first.next, first.events));
    }
    Chain(r, events, first, o, ArrayAt(w, text, i, events), ArrayAt(r, text, i, events));
  }

  lemma {:induction false} FirstElementStops(r: Reader, text: Text, i: nat, events: seq<Event>)
    requires Sound(r) && Sound(Willing(r)) && i <= |text|
    ensures Stopped(r, events, ArrayInitial(Willing(r), text, i, events), ArrayInitial(r, text, i, events))
    decreases |text| - i, 6
  {
    hide Sound, Stopped, ElementAt;
    Reported(r, events, EndArray(0), i + 1);
    ElementStops(r, text, i, events, 0);
  }

  lemma {:induction false} ElementStops(r: Reader, text: Text, i: nat, events: seq<Event>, count: nat)
    requires Sound(r) && Sound(Willing(r)) && i <= |text|
    ensures Stopped(r, events, ElementAt(Willing(r), text, i, events, count), ElementAt(r, text, i, events, count))
    decreases |text| - i, 5
  {
    hide Sound, Stopped, SkipAfter, ValueAt, AfterElement;
    var w := Willing(r);
    ValueStops(r, text, i, events);
    SkippedAfter(r, text, events, ValueAt(w, text, i, events), ValueAt(r, text, i, events));
    var first, o := SkipAfter(w, text, ValueAt(w, text, i, events)), SkipAfter(r, text, ValueAt(r, text, i, events));
    Grows(r, events, first, o);
    if first.Done? {
      AfterElementStops(r, text, first.next, first.events, count);
      Grows(r, first.events, AfterElement(w, text, first.next, first.events, count), AfterElement(r, text, first.next, first.events, count));
    }
    Chain(r, events, first, o, ElementAt(w, text, i, events, count), ElementAt(r, text, i, events, count));
  }

  lemma {:induction false} AfterElementStops(r: Reader, text: Text, i: nat, events: seq<Event>, count: nat)
    requires Sound(r) && Sound(Willing(r)) && i <= |text|
    ensures Stopped(r, events, AfterElement(Willing(r), text, i, events, count), AfterElement(r, text, i, events, count))
    decreases |text| - i, 5
  {
    hide Sound, Stopped, AfterElementComma;
    Unchanged(r, events, Broken(events));
    Reported(r, events, EndArray(count + 1), i + 1);
    if Peek(text, i) == COMMA {
      Skipped(r, text, i + 1, events);
      if Skip(r, text, i + 1, events).Done? {
        var j := Skip(r, text, i + 1, events).next;
        Reported(r, events, EndArray(count + 1), j + 1);
        ElementStops(r, text, j, events, count + 1);
        ElementCommaStops(r, text, j, events, count + 1);
      }
    }
  }

  lemma ElementCommaStops(r: Reader, text: Text, i: nat, events: seq<Event>, count: nat)
    requires Sound(r) && Sound(Willing(r)) && i <= |text|
    requires Stopped(r, events, Report(Willing(r), events, EndArray(count), i + 1), Report(r, events, EndArray(count), i + 1))
    requires Stopped(r, events, ElementAt(Willing(r), text, i, events, count), ElementAt(r, text, i, events, count))
    ensures Stopped(r, events, AfterElementComma(Willing(r), text, i, events, count), AfterElementComma(r, text, i, events, count))
  {
    hide Sound, Stopped, ElementAt, Report;
  }

  // ----- A whole document -----

  /**
   * The parse reports what it would report to a handler that takes everything, up to the first event that is refused;
   * it fails there, and is not changed otherwise.
   */
  lemma RefusalStops(r: Reader, text: Text)
    requires Sound(r)
    ensures Sound(Willing(r))
    ensures var all := Document(Willing(r), text);
            var n := FirstRefused(r, all.events, 0);
            Document(r, text) == if n == |all.events| then all else Rejected(all.events[..n + 1])
  {
    WillingIsSound(r);
    hide Sound, Stopped, ValueAt;
    Skipped(r, text, 0, []);
    if Skip(r, text, 0, []).Done? {
      RootStops(r, text, Skip(r, text, 0, []).next);
    }
  }

  lemma RootStops(r: Reader, text: Text, i: nat)
    requires Sound(r) && Sound(Willing(r)) && i <= |text|
    ensures var all := RootAt(Willing(r), text, i, []);
            var n := FirstRefused(r, all.events, 0);
            RootAt(r, text, i, []) == if n == |all.events| then all else Rejected(all.events[..n + 1])
  {
    hide Sound, ValueAt;
    ValueStops(r, text, i, []);
    var all := ValueAt(Willing(r), text, i, []);
    if all.Done? {
      Skipped(r, text, all.next, all.events);
    }
  }
}
