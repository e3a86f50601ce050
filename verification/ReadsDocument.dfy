/** Parsing any text at all into a document: no assertion on the document's stack ever fails, and a parse that succeeds
    leaves exactly one value (document.h). */
module ReadsDocument {
  import opened Streams
  import opened Events
  import opened Dom
  import opened ReaderSpec
  import Automaton
  import Equivalence
  import Document
  import Reader

  /** The document after some events; refused if an assertion failed. */
  function Fed(events: seq<Event>): (seq<Value>, bool) {
    Feed(Document.Step, [], events)
  }

  lemma FedOneMore(events: seq<Event>, e: Event)
    requires Fed(events).1
    ensures Fed(events + [e]) == Document.Step(Fed(events).0, e)
  {
    hide Document.Step;
    FeedAppend(Document.Step, [], events, [e]);
    FeedOne(Document.Step, Fed(events).0, e);
  }

  /** The events that push one value. */
  predicate Pushes(e: Event) {
    !e.StartObject? && !e.EndObject? && !e.StartArray? && !e.EndArray?
  }

  lemma PushesOne(stack: seq<Value>, e: Event)
    requires Pushes(e)
    ensures var r := Document.Step(stack, e);
            r.1 && exists v :: r.0 == stack + [v] && Built(v) && (e.Key? ==> v.StringValue?)
  {
    var v := Document.Step(stack, e).0[|stack|];
    assert Document.Step(stack, e).0 == stack + [v];
  }

  /** The value on top of the stack, once a parse step has pushed one. */
  ghost predicate Pushed(r: Progress, stack: seq<Value>) {
    && Fed(r.events).1
    && (r.error == NoError ==>
          var after := Fed(r.events).0;
          |after| == |stack| + 1 && after[..|stack|] == stack && Built(after[|stack|]))
  }

  /** A scalar sends one event, or none before an error. */
  lemma ScalarPushes(cf: Config, s: Progress, r: Progress, e: Event)
    requires s.error == NoError && Fed(s.events).1 && Pushes(e)
    requires r.events == s.events + [e] || (r.events == s.events && r.error != NoError)
    ensures Pushed(r, Fed(s.events).0)
    ensures r.error == NoError && e.Key? ==> Fed(r.events).0[|Fed(s.events).0|].StringValue?
  {
    hide Fed, Document.Step;
    if r.events == s.events + [e] {
      FedOneMore(s.events, e);
      PushesOne(Fed(s.events).0, e);
    }
  }

  lemma NumberEmits(cf: Config, s: Progress) returns (e: Event)
    requires s.error == NoError
    ensures Pushes(e)
    ensures var r := ParseNumber(cf, s); r.events == s.events + [e] || (r.events == s.events && r.error != NoError)
  {
    hide ParseInteger, ParseFraction, ParseExponent;
    var r := ParseNumber(cf, s);
    e := if r.events == s.events then Null else r.events[|s.events|];
  }

  lemma StringEmits(cf: Config, s: Progress, isKey: bool) returns (e: Event)
    requires s.error == NoError && s.rest != []
    ensures Pushes(e) && (isKey ==> e.Key?)
    ensures var r := ParseString(cf, s, isKey); r.events == s.events + [e] || (r.events == s.events && r.error != NoError)
  {
    hide ScanString;
    var text := ScanString(cf.validate, Scanned([], Next(s.rest), NoError)).text;
    e := if isKey then Key(text) else String(text);
  }

  lemma {:induction false} ValuePushes(cf: Config, s: Progress)
    requires s.error == NoError && Fed(s.events).1 && |s.rest| < SIZE_MODULUS
    ensures Pushed(ParseValue(cf, s), Fed(s.events).0)
    decreases |s.rest|, 1
  {
    hide ParseNumber, ParseString, ParseObject, ParseArray, TakeAll, Fed, Pushed;
    var c := Peek(s.rest);
    if c == 0x6E {
      ScalarPushes(cf, s, ParseValue(cf, s), Null);
    } else if c == 0x74 {
      ScalarPushes(cf, s, ParseValue(cf, s), Bool(true));
    } else if c == 0x66 {
      ScalarPushes(cf, s, ParseValue(cf, s), Bool(false));
    } else if c == QUOTE {
      var e := StringEmits(cf, s, false);
      ScalarPushes(cf, s, ParseValue(cf, s), e);
    } else if c == LCURLY {
      ObjectPushes(cf, s);
    } else if c == LBRACKET {
      ArrayPushes(cf, s);
    } else {
      var e := NumberEmits(cf, s);
      ScalarPushes(cf, s, ParseValue(cf, s), e);
    }
  }

  lemma {:induction false} ArrayPushes(cf: Config, s: Progress)
    requires s.error == NoError && Fed(s.events).1 && s.rest != [] && |s.rest| < SIZE_MODULUS
    ensures Pushed(ParseArray(cf, s), Fed(s.events).0)
    decreases |s.rest|, 0
  {
    hide ParseElements, Fed;
    var stack := Fed(s.events).0;
    FedOneMore(s.events, StartArray);
    var s1 := Emit(cf, s.(rest := Next(s.rest)), StartArray);
    if s1.error == NoError {
      var s2 := Skip(s1);
      assert stack + [ArrayValue([])] + [] == stack + [ArrayValue([])];
      if Peek(s2.rest) == RBRACKET {
        EndArrayBuilds(stack, [], s2.events);
      } else {
        ElementsPush(cf, s2, 0, stack, []);
      }
    }
  }

  predicate AllBuilt(values: seq<Value>) {
    forall i | 0 <= i < |values| :: Built(values[i])
  }

  lemma EndArrayBuilds(stack: seq<Value>, values: seq<Value>, events: seq<Event>)
    requires Fed(events) == (stack + [ArrayValue([])] + values, true)
    requires AllBuilt(values) && |values| < SIZE_MODULUS
    ensures Fed(events + [EndArray(|values|)]) == (stack + [ArrayValue(values)], true)
    ensures Built(ArrayValue(values))
  {
    FedOneMore(events, EndArray(|values|));
    Document.ArrayCloses(stack, values);
  }

  lemma {:induction false} ElementsPush(cf: Config, s: Progress, count: uint32, stack: seq<Value>, values: seq<Value>)
    requires s.error == NoError && Fed(s.events) == (stack + [ArrayValue([])] + values, true)
    requires AllBuilt(values) && |values| == count && |s.rest| + count < SIZE_MODULUS
    ensures Pushed(ParseElements(cf, s, count), stack)
    decreases |s.rest|, 2
  {
    hide ParseValue, Fed, Built;
    ValuePushes(cf, s);
    var s1 := ParseValue(cf, s);
    if s1.error == NoError {
      var after := Fed(s1.events).0;
      var v := after[|after| - 1];
      var values' := values + [v];
      assert after == stack + [ArrayValue([])] + values';
      var s2 := Skip(s1);
      var s3 := s2.(rest := Next(s2.rest));
      if Peek(s2.rest) == COMMA {
        ElementsPush(cf, Skip(s3), IncSize(count), stack, values');
      } else if Peek(s2.rest) == RBRACKET {
        EndArrayBuilds(stack, values', s3.events);
      }
    }
  }

  lemma {:induction false} ObjectPushes(cf: Config, s: Progress)
    requires s.error == NoError && Fed(s.events).1 && s.rest != [] && |s.rest| < SIZE_MODULUS
    ensures Pushed(ParseObject(cf, s), Fed(s.events).0)
    decreases |s.rest|, 0
  {
    hide ParseMembers, Fed;
    var stack := Fed(s.events).0;
    FedOneMore(s.events, StartObject);
    var s1 := Emit(cf, s.(rest := Next(s.rest)), StartObject);
    if s1.error == NoError {
      var s2 := Skip(s1);
      assert stack + [ObjectValue([])] + [] == stack + [ObjectValue([])];
      if Peek(s2.rest) == RCURLY {
        EndObjectBuilds(stack, [], s2.events);
      } else {
        MembersPush(cf, s2, 0, stack, []);
      }
    }
  }

  lemma {:induction false} MembersBuilt(values: seq<Value>)
    requires Document.AreMembers(values) && AllBuilt(values)
    ensures var ms := Document.AsMembers(values);
            2 * |ms| == |values| && forall i | 0 <= i < |ms| :: Built(ms[i].value)
    decreases |values|
  {
    if values != [] {
      MembersBuilt(values[2..]);
    }
  }

  lemma EndObjectBuilds(stack: seq<Value>, values: seq<Value>, events: seq<Event>)
    requires Fed(events) == (stack + [ObjectValue([])] + values, true)
    requires Document.AreMembers(values) && AllBuilt(values) && |values| < 2 * SIZE_MODULUS && |values| % 2 == 0
    ensures Fed(events + [EndObject(|values| / 2)]) == (stack + [ObjectValue(Document.AsMembers(values))], true)
    ensures Built(ObjectValue(Document.AsMembers(values)))
  {
    hide Fed, Document.AreMembers, Document.AsMembers;
    MembersBuilt(values);
    Document.EndObjectPops(stack, values, |values| / 2);
    FedOneMore(events, EndObject(|values| / 2));
  }

  lemma {:induction false} MembersAppend(values: seq<Value>, name: Value, v: Value)
    requires Document.AreMembers(values) && name.StringValue?
    ensures Document.AreMembers(values + [name, v])
    decreases |values|
  {
    if values == [] {
      assert values + [name, v] == [name, v] && [name, v][2..] == [];
    } else {
      MembersAppend(values[2..], name, v);
      assert (values + [name, v])[2..] == values[2..] + [name, v];
    }
  }

  /** The value a successful parse left on top, the rest of the stack being as it was. */
  lemma OnTop(stack: seq<Value>, after: seq<Value>) returns (v: Value)
    requires |after| == |stack| + 1 && after[..|stack|] == stack
    ensures after == stack + [v] && v == after[|stack|]
  {
    v := after[|stack|];
  }

  /** One member leaves its name and its value. */
  lemma {:induction false} MemberPushes(cf: Config, s: Progress, s1: Progress, s3: Progress) returns (name: Value, v: Value)
    requires s.error == NoError && Fed(s.events).1 && Peek(s.rest) == QUOTE && |s.rest| < SIZE_MODULUS
    requires s1 == ParseString(cf, s, true) && s1.error == NoError
    requires s3.events == s1.events && s3.error == NoError && |s3.rest| < |s.rest|
    requires ParseValue(cf, s3).error == NoError
    ensures Fed(ParseValue(cf, s3).events) == (Fed(s.events).0 + [name, v], true)
    ensures name.StringValue? && Built(name) && Built(v)
    decreases |s.rest|, 1
  {
    hide ParseValue, ParseString, Fed, Built;
    var e := StringEmits(cf, s, true);
    ScalarPushes(cf, s, s1, e);
    name := OnTop(Fed(s.events).0, Fed(s1.events).0);
    ValuePushes(cf, s3);
    v := OnTop(Fed(s1.events).0, Fed(ParseValue(cf, s3).events).0);
    assert Fed(s.events).0 + [name] + [v] == Fed(s.events).0 + [name, v];
  }

  /** They join the members read before. */
  lemma MemberJoins(before: seq<Value>, after: seq<Value>, stack: seq<Value>, values: seq<Value>, name: Value, v: Value)
    returns (values': seq<Value>)
    requires before == stack + [ObjectValue([])] + values && after == before + [name, v]
    requires Document.AreMembers(values) && AllBuilt(values) && name.StringValue? && Built(name) && Built(v)
    ensures after == stack + [ObjectValue([])] + values' && |values'| == |values| + 2
    ensures Document.AreMembers(values') && AllBuilt(values')
  {
    hide Document.AreMembers, Built;
    values' := values + [name, v];
    MembersAppend(values, name, v);
    assert stack + [ObjectValue([])] + values + [name, v] == stack + [ObjectValue([])] + values';
  }

  lemma {:induction false} MembersPush(cf: Config, s: Progress, count: uint32, stack: seq<Value>, values: seq<Value>)
    requires s.error == NoError && Fed(s.events) == (stack + [ObjectValue([])] + values, true)
    requires Document.AreMembers(values) && AllBuilt(values) && |values| == 2 * count && |s.rest| + count < SIZE_MODULUS
    ensures Pushed(ParseMembers(cf, s, count), stack)
    decreases |s.rest|, 2
  {
    hide ParseValue, ParseString, Fed, Built, AllBuilt, Document.AreMembers;
    if Peek(s.rest) == QUOTE {
      var e := StringEmits(cf, s, true);
      ScalarPushes(cf, s, ParseString(cf, s, true), e);
      var s1 := ParseString(cf, s, true);
      var s2 := Skip(s1);
      var s3 := Skip(s2.(rest := Next(s2.rest)));
      if s1.error == NoError && Peek(s2.rest) == COLON {
        ValuePushes(cf, s3);
        var s4 := ParseValue(cf, s3);
        if s4.error == NoError {
          var name, v := MemberPushes(cf, s, s1, s3);
          var values' := MemberJoins(Fed(s.events).0, Fed(s4.events).0, stack, values, name, v);
          var s5 := Skip(s4);
          var s6 := s5.(rest := Next(s5.rest));
          if Peek(s5.rest) == COMMA {
            MembersPush(cf, Skip(s6), IncSize(count), stack, values');
          } else if Peek(s5.rest) == RCURLY {
            EndObjectBuilds(stack, values', s6.events);
          }
        }
      }
    }
  }

  /** For every text SizeType can count, either parser drives a document without failing one of its assertions,
      and a parse without error leaves exactly one value. */
  lemma OneRoot(cf: Config, text: bytes)
    requires |text| < SIZE_MODULUS
    ensures Fed(ParseRecursive(cf, text).events).1
    ensures ParseRecursive(cf, text).error == NoError ==>
              exists v :: Built(v) && Fed(ParseRecursive(cf, text).events).0 == [v]
    ensures Automaton.ParseIterative(cf, text).events == ParseRecursive(cf, text).events
  {
    hide ParseValue, Fed, Built;
    var s := Skip(Progress(text, [], NoError));
    assert Fed([]) == ([], true) by { FedNothing(); }
    if Peek(s.rest) != 0 {
      ValuePushes(cf, s);
      var r := ParseRecursive(cf, text);
      if r.error == NoError {
        assert Fed(r.events).0 == [Fed(r.events).0[0]];
      }
    }
    Equivalence.ParsersAgree(cf, text);
  }

  lemma FedNothing()
    ensures Fed([]) == ([], true)
  {
  }

  lemma {:induction false} FedPrefix(events: seq<Event>, k: nat)
    requires k <= |events| && Fed(events).1
    ensures Fed(events[..k]).1
  {
    hide Document.Step;
    assert events == events[..k] + events[k..];
    FeedAppend(Document.Step, [], events[..k], events[k..]);
  }

  /** The same parser with a handler that never stops it, as every handler of the document does. */
  function Accepting(cf: Config): Config {
    cf.(accept := _ => true)
  }

  /** ParseStream: either parser, with the document as its handler, which never stops it. */
  method ParseStream(doc: Document.GenericDocument, cf: Config, iterative: bool, text: bytes)
    requires |text| < SIZE_MODULUS && doc.stack == []
    modifies doc
    ensures var r := ParseRecursive(Accepting(cf), text);
            && (doc.error == NoError <==> r.error == NoError)
            && (r.error == NoError ==> Fed(r.events) == ([doc.root], true) && Built(doc.root))
            && (r.error != NoError ==> doc.root == NullValue)
    ensures doc.stack == []
  {
    hide ParseRecursive, Fed, Document.Step, Built, Automaton.ParseIterative;
    doc.root := NullValue;
    var input := new InputStream(text);
    var reader := new Reader.GenericReader(Accepting(cf));
    if iterative {
      reader.IterativeParse(input);
    } else {
      reader.Parse(input);
    }
    doc.error := reader.error;
    OneRoot(reader.cf, text);
    Equivalence.ParsersAgree(reader.cf, text);
    var error, events := reader.error, reader.events;
    FedNothing();
    for i := 0 to |events|
      invariant Fed(events[..i]) == (doc.stack, true)
      invariant doc.root == NullValue && doc.error == error
    {
      FedPrefix(events, i + 1);
      assert events[..i + 1] == events[..i] + [events[i]];
      FedOneMore(events[..i], events[i]);
      doc.Handle(events[i]);
    }
    assert events[..|events|] == events;
    if doc.error == NoError {
      var values := doc.Pop(1);
      doc.root := values[0];
    }
    doc.stack := [];
  }
}
