/** Exactly when a value survives being written and parsed: an ASCII writer refuses every value with an ill-formed string in
    it, and a validating parser every text a UTF-8 writer made of one (writer.h, reader.h). */
module RoundTripExact {
  import opened Streams
  import opened Events
  import opened Dom
  import opened ReaderSpec
  import opened ReadNumber
  import opened Text
  import opened RoundTrip
  import Automaton
  import Document
  import Quoting
  import Utf8
  import WriterSpec

  /** Whether every string an event carries is well-formed. */
  predicate GoodEvent(e: Event) {
    e.String? || e.Key? ==> Utf8.WellFormed(e.text)
  }

  predicate GoodEvents(events: seq<Event>) {
    forall i | 0 <= i < |events| :: GoodEvent(events[i])
  }

  lemma GoodSplit(a: seq<Event>, b: seq<Event>)
    ensures GoodEvents(a + b) <==> GoodEvents(a) && GoodEvents(b)
  {
    if GoodEvents(a + b) {
      assert forall i | 0 <= i < |a| :: a[i] == (a + b)[i];
      assert forall i | 0 <= i < |b| :: b[i] == (a + b)[|a| + i];
    }
  }

  // ---------------------------------------------------------------- an ASCII writer

  /** An event an ASCII writer accepts carries no ill-formed string, and leaves it an ASCII writer. */
  lemma AcceptedIsGood(w: WriterSpec.WriterState, e: Event)
    requires w.style.ascii && WriterSpec.Step(w, e).1
    ensures GoodEvent(e) && WriterSpec.Step(w, e).0.style == w.style
  {
    hide Quoting.WriteBody;
    if e.String? || e.Key? {
      Quoting.StringRoundTrip(true, false, e.text, []);
    }
  }

  lemma {:induction false} AcceptedAreGood(w: WriterSpec.WriterState, events: seq<Event>)
    requires w.style.ascii && Feed(WriterSpec.Step, w, events).1
    ensures GoodEvents(events)
    decreases |events|
  {
    hide WriterSpec.Step, GoodEvent;
    if events != [] {
      AcceptedIsGood(w, events[0]);
      AcceptedAreGood(WriterSpec.Step(w, events[0]).0, events[1..]);
      GoodSplit([events[0]], events[1..]);
      assert events == [events[0]] + events[1..];
    }
  }

  /** The strings of a value are the strings of its events. */
  lemma {:induction false} GoodValue(v: Value)
    requires Built(v) && GoodEvents(EventsOf(ByAccept, v))
    ensures Strings(v, Utf8.WellFormed)
    decreases v, Width(v) + 1
  {
    match v {
      case StringValue(text) => assert GoodEvent(EventsOf(ByAccept, v)[0]);
      case ArrayValue(es) =>
        GoodSplit([StartArray] + ElementEvents(ByAccept, v, 0), [EndArray(|es|)]);
        GoodSplit([StartArray], ElementEvents(ByAccept, v, 0));
        GoodElements(v, 0);
      case ObjectValue(ms) =>
        GoodSplit([StartObject] + MemberEvents(ByAccept, v, 0), [EndObject(|ms|)]);
        GoodSplit([StartObject], MemberEvents(ByAccept, v, 0));
        GoodMembers(v, 0);
      case _ =>
    }
  }

  lemma {:induction false} GoodElements(v: Value, k: nat)
    requires v.ArrayValue? && Built(v) && k <= |v.elements| && GoodEvents(ElementEvents(ByAccept, v, k))
    ensures forall i | k <= i < |v.elements| :: Strings(v.elements[i], Utf8.WellFormed)
    decreases v, |v.elements| - k
  {
    if k < |v.elements| {
      GoodSplit(EventsOf(ByAccept, v.elements[k]), ElementEvents(ByAccept, v, k + 1));
      GoodValue(v.elements[k]);
      GoodElements(v, k + 1);
    }
  }

  lemma {:induction false} GoodMembers(v: Value, k: nat)
    requires v.ObjectValue? && Built(v) && k <= |v.members| && GoodEvents(MemberEvents(ByAccept, v, k))
    ensures forall i | k <= i < |v.members| ::
              Utf8.WellFormed(v.members[i].name) && Strings(v.members[i].value, Utf8.WellFormed)
    decreases v, |v.members| - k
  {
    if k < |v.members| {
      var m := v.members[k];
      var first := [Key(m.name)] + EventsOf(ByAccept, m.value);
      GoodSplit(first, MemberEvents(ByAccept, v, k + 1));
      GoodSplit([Key(m.name)], EventsOf(ByAccept, m.value));
      assert GoodEvent([Key(m.name)][0]);
      GoodValue(m.value);
      GoodMembers(v, k + 1);
    }
  }

  // ---------------------------------------------------------------- a validating parser

  lemma RefusesQuoted(cf: Config, st: Style, text: bytes, post: bytes, events: seq<Event>, isKey: bool)
    requires cf.validate && !st.ascii && !Utf8.WellFormed(text)
    ensures Quoted(st, text) != [] && Quoted(st, text)[0] == QUOTE
    ensures ParseString(cf, Progress(Quoted(st, text) + post, events, NoError), isKey).error != NoError
  {
    hide ScanString, Emit, Quoting.WriteBody;
    Quoting.StringRoundTrip(false, true, text, post);
    TakeFront(Quoted(st, text), post);
  }

  lemma RefusesString(cf: Config, st: Style, v: Value, depth: nat, post: bytes, events: seq<Event>)
    requires cf.validate && !st.ascii && v.StringValue? && !Utf8.WellFormed(v.text)
    ensures ParseValue(cf, Progress(TextOf(st, v, depth) + post, events, NoError)).error != NoError
  {
    hide ParseNumber, ParseLiteral, ParseString, ParseObject, ParseArray, Quoted;
    RefusesQuoted(cf, st, v.text, post, events, false);
    TakeFront(Quoted(st, v.text), post);
  }

  /** What a validating parser and a UTF-8 writer have in common here. */
  ghost predicate Refusing(cf: Config, st: Style, v: Value) {
    ValidStyle(st) && AcceptsAll(cf) && cf.validate && !st.ascii && Built(v) && NoDoubles(v)
  }

  lemma {:induction false} RefusesValue(cf: Config, st: Style, v: Value, depth: nat, post: bytes, events: seq<Event>)
    requires Refusing(cf, st, v) && !Strings(v, Utf8.WellFormed) && EndsInteger(post)
    ensures ParseValue(cf, Progress(TextOf(st, v, depth) + post, events, NoError)).error != NoError
    decreases v, Width(v) + 1
  {
    hide ParseValue, TextOf, ElementTail, ElementText, StartsValue, MemberTail, MemberText;
    match v {
      case StringValue(_) => RefusesString(cf, st, v, depth, post, events);
      case ArrayValue(es) =>
        var tail := ElementTail(st, v, 0, depth, post);
        ArrayText(st, v, depth, post);
        ElementTailShape(st, v, 0, depth, post);
        OpensArray(cf, tail, events);
        NotSpace(Peek(ElementText(st, v, 0, depth, post)));
        RefusesElements(cf, st, v, 0, depth, post, events + [StartArray]);
      case ObjectValue(ms) =>
        var tail := MemberTail(st, v, 0, depth, post);
        ObjectText(st, v, depth, post);
        MemberTailShape(st, v, 0, depth, post);
        OpensObject(cf, tail, events);
        RefusesMembers(cf, st, v, 0, depth, post, events + [StartObject]);
      case _ =>
    }
  }

  lemma {:induction false} RefusesElements(cf: Config, st: Style, v: Value, k: nat, depth: nat, post: bytes, events: seq<Event>)
    requires v.ArrayValue? && k < |v.elements| && Refusing(cf, st, v)
    requires !forall i | k <= i < |v.elements| :: Strings(v.elements[i], Utf8.WellFormed)
    ensures ParseElements(cf, Progress(ElementText(st, v, k, depth, post), events, NoError), k).error != NoError
    decreases v, |v.elements| - k, 0
  {
    hide ParseValue, EventsOf, ParseElements, EndsInteger, TextOf, ElementTail, StartsValue;
    var e := v.elements[k];
    var s := Progress(ElementText(st, v, k, depth, post), events, NoError);
    var tail := ElementTail(st, v, k + 1, depth, post);
    ElementTailShape(st, v, k + 1, depth, post);
    CommaEndsInteger(tail);
    if Strings(e, Utf8.WellFormed) {
      ReadsValue(cf, st, e, depth + 1, tail, events);
      assert k + 1 < |v.elements|;
      NextElement(cf, s, k);
      RefusesElements(cf, st, v, k + 1, depth, post, events + EventsOf(ByReader, e));
    } else {
      RefusesValue(cf, st, e, depth + 1, tail, events);
      ElementFails(cf, s, k);
    }
  }

  lemma ElementFails(cf: Config, s: Progress, k: uint32)
    requires s.error == NoError && ParseValue(cf, s).error != NoError
    ensures ParseElements(cf, s, k).error != NoError
  {
    hide ParseValue;
  }

  lemma {:induction false} RefusesMembers(cf: Config, st: Style, v: Value, k: nat, depth: nat, post: bytes, events: seq<Event>)
    requires v.ObjectValue? && k < |v.members| && Refusing(cf, st, v)
    requires !forall i | k <= i < |v.members| ::
               Utf8.WellFormed(v.members[i].name) && Strings(v.members[i].value, Utf8.WellFormed)
    ensures ParseMembers(cf, Progress(MemberText(st, v, k, depth, post), events, NoError), k).error != NoError
    decreases v, |v.members| - k, 0
  {
    hide ParseValue, ParseString, EventsOf, ParseMembers, EndsInteger, TextOf, MemberTail, MemberText, AfterMember,
      Utf8.WellFormed, Strings;
    var m := v.members[k];
    var s := Progress(MemberText(st, v, k, depth, post), events, NoError);
    if Utf8.WellFormed(m.name) {
      NameIsRead(cf, st, v, k, depth, post, events);
      var tail := MemberTail(st, v, k + 1, depth, post);
      MemberTailShape(st, v, k + 1, depth, post);
      CommaEndsInteger(tail);
      if Strings(m.value, Utf8.WellFormed) {
        ReadsValue(cf, st, m.value, depth + 1, tail, events + [Key(m.name)]);
        assert k + 1 < |v.members|;
        NextMember(cf, s, k);
        RefusesMembers(cf, st, v, k + 1, depth, post, AfterMember(cf, s).events);
      } else {
        RefusesValue(cf, st, m.value, depth + 1, tail, events + [Key(m.name)]);
        MemberFails(cf, s, k);
      }
    } else {
      NameIsRefused(cf, st, v, k, depth, post, events);
      NameFails(cf, s, k);
    }
  }

  lemma NameIsRead(cf: Config, st: Style, v: Value, k: nat, depth: nat, post: bytes, events: seq<Event>)
    requires v.ObjectValue? && k < |v.members| && Refusing(cf, st, v) && Utf8.WellFormed(v.members[k].name)
    ensures var s := Progress(MemberText(st, v, k, depth, post), events, NoError);
            var s1 := ParseString(cf, s, true);
            && Peek(s.rest) == QUOTE && s1.error == NoError && Peek(SkipSpace(s1.rest)) == COLON
            && AfterMember(cf, s) ==
                 ParseValue(cf, Progress(TextOf(st, v.members[k].value, depth + 1) + MemberTail(st, v, k + 1, depth, post),
                                         events + [Key(v.members[k].name)], NoError))
  {
    hide ParseValue, ParseString, TextOf, MemberTail, Quoted, ColonText;
    var colon := ColonText(st, v, k, depth, post);
    ReadsQuoted(cf, st, v.members[k].name, colon, events, true);
    TakeFront(Quoted(st, v.members[k].name), colon);
    ColonShape(st, v, k, depth, post);
  }

  lemma NameIsRefused(cf: Config, st: Style, v: Value, k: nat, depth: nat, post: bytes, events: seq<Event>)
    requires v.ObjectValue? && k < |v.members| && Refusing(cf, st, v) && !Utf8.WellFormed(v.members[k].name)
    ensures var s := Progress(MemberText(st, v, k, depth, post), events, NoError);
            Peek(s.rest) == QUOTE && ParseString(cf, s, true).error != NoError
  {
    hide ParseString, Quoted, ColonText;
    var colon := ColonText(st, v, k, depth, post);
    RefusesQuoted(cf, st, v.members[k].name, colon, events, true);
    TakeFront(Quoted(st, v.members[k].name), colon);
  }

  lemma NameFails(cf: Config, s: Progress, k: uint32)
    requires s.error == NoError && Peek(s.rest) == QUOTE && ParseString(cf, s, true).error != NoError
    ensures ParseMembers(cf, s, k).error != NoError
  {
    hide ParseString;
  }

  lemma MemberFails(cf: Config, s: Progress, k: uint32)
    requires s.error == NoError && Peek(s.rest) == QUOTE && ParseString(cf, s, true).error == NoError
    requires Peek(SkipSpace(ParseString(cf, s, true).rest)) == COLON && AfterMember(cf, s).error != NoError
    ensures ParseMembers(cf, s, k).error != NoError
  {
    hide ParseValue, ParseString, SkipSpace;
  }

  // ---------------------------------------------------------------- the theorem

  /** Whether a value comes back, whichever parser reads it: the writer accepts it, the parse has no error, and the document
      holds the same value in one slot. */
  predicate ComesBack(cf: Config, st: Style, v: Value)
    requires Built(v)
  {
    && Print(st, v).1
    && var a, b := ParseRecursive(cf, Print(st, v).0), Automaton.ParseIterative(cf, Print(st, v).0);
    && a.error == NoError && b.error == NoError
    && Feed(Document.Step, [], a.events) == ([v], true) && Feed(Document.Step, [], b.events) == ([v], true)
  }

  /** A value without doubles comes back exactly if its strings are well-formed or neither side looks at them. */
  lemma ComesBackExactly(cf: Config, st: Style, v: Value)
    requires ValidStyle(st) && AcceptsAll(cf) && Built(v) && NoDoubles(v)
    ensures ComesBack(cf, st, v) <==> (st.ascii || cf.validate ==> Strings(v, Utf8.WellFormed))
  {
    hide Print, ParseRecursive, Automaton.ParseIterative, Feed, Strings;
    if Survives(cf, st, v) {
      ParseOfPrint(cf, st, v);
      DocumentRoundTrip(cf, st, v);
    } else if st.ascii {
      AsciiRefuses(st, v);
    } else {
      ValidatingRefuses(cf, st, v);
    }
  }

  lemma AsciiRefuses(st: Style, v: Value)
    requires Built(v) && st.ascii && !Strings(v, Utf8.WellFormed)
    ensures !Print(st, v).1
  {
    hide Strings, EventsOf, Feed;
    var w := WriterSpec.WriterState(st, [], [], false);
    AcceptSendsEvents(WriterSpec.Step, w, v);
    if Print(st, v).1 {
      AcceptedAreGood(w, EventsOf(ByAccept, v));
      GoodValue(v);
    }
  }

  lemma ValidatingRefuses(cf: Config, st: Style, v: Value)
    requires Refusing(cf, st, v) && !Strings(v, Utf8.WellFormed)
    ensures ParseRecursive(cf, Print(st, v).0).error != NoError
  {
    hide ParseValue, TextOf, Print, StartsValue, Strings;
    PrintsText(cf.(validate := false), st, v);
    var text := TextOf(st, v, 0);
    TextStarts(st, v, 0);
    NotSpace(text[0]);
    assert text + [] == text;
    RefusesValue(cf, st, v, 0, [], []);
    assert Skip(Progress(text, [], NoError)) == Progress(text, [], NoError);
  }
}
