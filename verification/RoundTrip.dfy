/** Printing and parsing undo each other, for every value without doubles, every style and both parsers. */
module RoundTrip {
  import opened Streams
  import opened Events
  import opened Dom
  import opened Numbers
  import opened Text
  import opened ReaderSpec
  import opened ReadNumber
  import Automaton
  import Equivalence
  import Quoting
  import Utf8
  import WriterSpec
  import Document

  /** What a value must be to survive: buildable, without doubles, its strings decodable where someone decodes them. */
  predicate Survives(cf: Config, st: Style, v: Value) {
    Built(v) && NoDoubles(v) && (st.ascii || cf.validate ==> Strings(v, Utf8.WellFormed))
  }

  // ---------------------------------------------------------------- scalars

  lemma ReadsLiteral(cf: Config, st: Style, v: Value, depth: nat, post: bytes, events: seq<Event>)
    requires v.NullValue? || v.BoolValue?
    requires AcceptsAll(cf)
    ensures ParseValue(cf, Progress(TextOf(st, v, depth) + post, events, NoError)) ==
              Progress(post, events + EventsOf(ByReader, v), NoError)
  {
    var text := TextOf(st, v, depth);
    TakeFront(text, post);
    hide Emit;
    EmitAll(cf, Progress(post, events, NoError), EventsOf(ByReader, v)[0]);
    TakesAll(text[1..], post);
    assert TRUE[1..] == RUE && FALSE[1..] == ALSE && NULL[1..] == ULL;
  }

  lemma {:induction false} TakesAll(lit: bytes, post: bytes)
    ensures TakeAll(lit + post, lit) == Matched(true, post)
    decreases |lit|
  {
    if lit == [] {
      assert lit + post == post;
    } else {
      TakeFront(lit, post);
      TakesAll(lit[1..], post);
    }
  }

  lemma ReadsNumber(cf: Config, st: Style, v: Value, depth: nat, post: bytes, events: seq<Event>)
    requires v.NumberValue? && Built(v)
    requires AcceptsAll(cf) && EndsInteger(post)
    ensures ParseValue(cf, Progress(TextOf(st, v, depth) + post, events, NoError)) ==
              Progress(post, events + EventsOf(ByReader, v), NoError)
  {
    hide ParseNumber, ParseLiteral, ParseString, ParseObject, ParseArray, Emit;
    var ds := Decimal(if v.n < 0 then -v.n else v.n);
    ValueOfDecimal(if v.n < 0 then -v.n else v.n);
    DecimalShape(if v.n < 0 then -v.n else v.n);
    NarrowestType(cf, v.n < 0, ds, post, events);
    assert TextOf(st, v, depth) + post == Spelled(v.n < 0, ds, post);
    TakeFront(TextOf(st, v, depth), post);
    EmitAll(cf, Progress(post, events, NoError), EventOfInteger(v.n));
  }

  lemma DecimalShape(n: nat)
    ensures var ds := Decimal(n); ds[0] == ZERO ==> |ds| == 1
  {
  }

  lemma ReadsQuoted(cf: Config, st: Style, text: bytes, post: bytes, events: seq<Event>, isKey: bool)
    requires AcceptsAll(cf) && (st.ascii || cf.validate ==> Utf8.WellFormed(text))
    ensures Quoted(st, text) != [] && Quoted(st, text)[0] == QUOTE
    ensures ParseString(cf, Progress(Quoted(st, text) + post, events, NoError), isKey) ==
              Progress(post, events + [if isKey then Key(text) else String(text)], NoError)
  {
    hide ScanString, Emit, Quoting.WriteBody;
    Quoting.StringRoundTrip(st.ascii, cf.validate, text, post);
    TakeFront(Quoted(st, text), post);
    EmitAll(cf, Progress(post, events, NoError), if isKey then Key(text) else String(text));
  }

  lemma ReadsString(cf: Config, st: Style, v: Value, depth: nat, post: bytes, events: seq<Event>)
    requires v.StringValue?
    requires AcceptsAll(cf) && (st.ascii || cf.validate ==> Utf8.WellFormed(v.text))
    ensures ParseValue(cf, Progress(TextOf(st, v, depth) + post, events, NoError)) ==
              Progress(post, events + EventsOf(ByReader, v), NoError)
  {
    hide ParseNumber, ParseLiteral, ParseString, ParseObject, ParseArray, Quoted;
    ReadsQuoted(cf, st, v.text, post, events, false);
    TakeFront(Quoted(st, v.text), post);
  }

  // ---------------------------------------------------------------- whitespace and separators

  /** Skipping whitespace in front of something that is not whitespace. */
  lemma Skips(st: Style, depth: nat, post: bytes)
    requires ValidStyle(st) && post != [] && !IsSpace(post[0])
    ensures SkipSpace(NewLine(st, depth) + post) == post
    ensures SkipSpace(AfterColon(st) + post) == post
    ensures SkipSpace(post) == post
  {
    NewLineIsSpace(st, depth);
    SkipSpaceOver(NewLine(st, depth), post);
    SkipSpaceOver(AfterColon(st), post);
  }

  lemma BeforeItem(st: Style, k: nat, depth: nat, inner: bytes)
    requires ValidStyle(st) && inner != [] && !IsSpace(inner[0])
    ensures var tail := Between(st, k, depth) + inner;
            if k == 0 then SkipSpace(tail) == inner
            else Peek(tail) == COMMA && SkipSpace(tail) == tail && SkipSpace(Next(tail)) == inner
  {
    hide NewLine, SkipSpace;
    Skips(st, depth, inner);
    var rest := NewLine(st, depth) + inner;
    if k == 0 {
      assert Between(st, k, depth) + inner == rest;
    } else {
      assert Between(st, k, depth) + inner == [COMMA] + rest;
      TakeFront([COMMA], rest);
      assert [COMMA][1..] + rest == rest;
      Skips(st, depth, [COMMA] + rest);
    }
  }

  lemma BeforeBracket(st: Style, n: nat, depth: nat, c: byte, post: bytes)
    requires ValidStyle(st) && c in {RBRACKET, RCURLY}
    ensures var tail := LastLine(st, n, depth) + ([c] + post);
            SkipSpace(tail) == [c] + post && EndsInteger(tail)
  {
    Skips(st, depth, [c] + post);
    TakeFront([c], post);
    if n > 0 && st.pretty {
      TakeFront(NewLine(st, depth), [c] + post);
    } else {
      assert LastLine(st, n, depth) + ([c] + post) == [c] + post;
    }
  }

  // ---------------------------------------------------------------- arrays and objects

  /** What is left behind the first `k` elements: the others, the closing bracket, the rest. */
  function ElementTail(st: Style, v: Value, k: nat, depth: nat, post: bytes): bytes
    requires v.ArrayValue? && NoDoubles(v) && k <= |v.elements|
  {
    ElementsText(st, v, k, depth) + (LastLine(st, |v.elements|, depth) + ([RBRACKET] + post))
  }

  /** The same from inside the element with index `k`. */
  function ElementText(st: Style, v: Value, k: nat, depth: nat, post: bytes): bytes
    requires v.ArrayValue? && NoDoubles(v) && k < |v.elements|
  {
    TextOf(st, v.elements[k], depth + 1) + ElementTail(st, v, k + 1, depth, post)
  }

  lemma ElementTailShape(st: Style, v: Value, k: nat, depth: nat, post: bytes)
    requires v.ArrayValue? && NoDoubles(v) && k <= |v.elements| && ValidStyle(st)
    ensures var tail := ElementTail(st, v, k, depth, post);
            if k == |v.elements| then
              SkipSpace(tail) == [RBRACKET] + post && (k > 0 ==> EndsInteger(tail))
            else
              var inner := ElementText(st, v, k, depth, post);
              && StartsValue(Peek(inner))
              && (k > 0 ==> Peek(tail) == COMMA && SkipSpace(tail) == tail && SkipSpace(Next(tail)) == inner)
              && (k == 0 ==> SkipSpace(tail) == inner)
  {
    hide TextOf, Between, LastLine, EndsInteger, StartsValue;
    var n := |v.elements|;
    var tail := ElementTail(st, v, k, depth, post);
    if k == n {
      BeforeBracket(st, n, depth, RBRACKET, post);
      assert tail == LastLine(st, n, depth) + ([RBRACKET] + post);
    } else {
      var inner := ElementText(st, v, k, depth, post);
      TextStarts(st, v.elements[k], depth + 1);
      TakeFront(TextOf(st, v.elements[k], depth + 1), ElementTail(st, v, k + 1, depth, post));
      NotSpace(Peek(inner));
      BeforeItem(st, k, depth + 1, inner);
      Regroup(Between(st, k, depth + 1), TextOf(st, v.elements[k], depth + 1), ElementsText(st, v, k + 1, depth),
              LastLine(st, n, depth) + ([RBRACKET] + post));
    }
  }

  lemma Regroup(a: bytes, b: bytes, c: bytes, d: bytes)
    ensures a + b + c + d == a + (b + (c + d))
  {
  }

  lemma NotSpace(c: byte)
    requires StartsValue(c)
    ensures !IsSpace(c) && c != RBRACKET && c != RCURLY && c != 0
  {
  }

  lemma {:induction false} ReadsValue(cf: Config, st: Style, v: Value, depth: nat, post: bytes, events: seq<Event>)
    requires ValidStyle(st) && AcceptsAll(cf) && Survives(cf, st, v) && EndsInteger(post)
    ensures ParseValue(cf, Progress(TextOf(st, v, depth) + post, events, NoError)) ==
              Progress(post, events + EventsOf(ByReader, v), NoError)
    decreases v, Width(v) + 1
  {
    hide ParseValue, TextOf, EventsOf;
    match v {
      case NullValue => ReadsLiteral(cf, st, v, depth, post, events);
      case BoolValue(_) => ReadsLiteral(cf, st, v, depth, post, events);
      case NumberValue(_, _) => ReadsNumber(cf, st, v, depth, post, events);
      case StringValue(_) => ReadsString(cf, st, v, depth, post, events);
      case ArrayValue(_) => ReadsArray(cf, st, v, depth, post, events);
      case ObjectValue(_) => ReadsObject(cf, st, v, depth, post, events);
    }
  }

  lemma {:induction false} ReadsArray(cf: Config, st: Style, v: Value, depth: nat, post: bytes, events: seq<Event>)
    requires v.ArrayValue?
    requires ValidStyle(st) && AcceptsAll(cf) && Survives(cf, st, v)
    ensures ParseValue(cf, Progress(TextOf(st, v, depth) + post, events, NoError)) ==
              Progress(post, events + EventsOf(ByReader, v), NoError)
    decreases v, Width(v), 1
  {
    hide ParseValue, TextOf, EventsOf, ElementTail, ElementText, StartsValue;
    var tail := ElementTail(st, v, 0, depth, post);
    ArrayText(st, v, depth, post);
    ElementTailShape(st, v, 0, depth, post);
    OpensArray(cf, tail, events);
    if v.elements == [] {
      ClosesArray(cf, SkipSpace(tail), events + [StartArray], post);
    } else {
      NotSpace(Peek(ElementText(st, v, 0, depth, post)));
      ReadsElements(cf, st, v, 0, depth, post, events + [StartArray]);
    }
    ArrayEvents(v, events);
  }

  lemma ArrayText(st: Style, v: Value, depth: nat, post: bytes)
    requires v.ArrayValue? && NoDoubles(v)
    ensures TextOf(st, v, depth) + post == [LBRACKET] + ElementTail(st, v, 0, depth, post)
  {
    hide ElementsText, LastLine;
    var text, last := ElementsText(st, v, 0, depth), LastLine(st, |v.elements|, depth);
    assert [LBRACKET] + text + last + [RBRACKET] + post == [LBRACKET] + (text + (last + ([RBRACKET] + post)));
  }

  lemma ArrayEvents(v: Value, events: seq<Event>)
    requires v.ArrayValue? && Built(v)
    ensures events + EventsOf(ByReader, v) ==
              events + [StartArray] + ElementEvents(ByReader, v, 0) + [EndArray(|v.elements|)]
    ensures v.elements == [] ==> events + EventsOf(ByReader, v) == events + [StartArray] + [EndArray(0)]
  {
  }

  lemma OpensArray(cf: Config, tail: bytes, events: seq<Event>)
    requires AcceptsAll(cf)
    ensures ParseValue(cf, Progress([LBRACKET] + tail, events, NoError)) ==
              var s := Progress(SkipSpace(tail), events + [StartArray], NoError);
              if Peek(s.rest) == RBRACKET then Emit(cf, s.(rest := Next(s.rest)), EndArray(0)) else ParseElements(cf, s, 0)
  {
    hide ParseElements, ParseNumber, ParseString, ParseLiteral, ParseObject, Emit, SkipSpace;
    TakeFront([LBRACKET], tail);
    assert [LBRACKET][1..] + tail == tail;
    EmitAll(cf, Progress(tail, events, NoError), StartArray);
  }

  lemma ClosesArray(cf: Config, rest: bytes, events: seq<Event>, post: bytes)
    requires AcceptsAll(cf) && rest == [RBRACKET] + post
    ensures Peek(rest) == RBRACKET
    ensures Emit(cf, Progress(Next(rest), events, NoError), EndArray(0)) == Progress(post, events + [EndArray(0)], NoError)
  {
    TakeFront([RBRACKET], post);
    assert [RBRACKET][1..] + post == post;
  }

  lemma {:induction false} ReadsElements(cf: Config, st: Style, v: Value, k: nat, depth: nat, post: bytes, events: seq<Event>)
    requires v.ArrayValue? && k < |v.elements|
    requires ValidStyle(st) && AcceptsAll(cf) && Survives(cf, st, v)
    ensures ParseElements(cf, Progress(ElementText(st, v, k, depth, post), events, NoError), k) ==
              Progress(post, events + ElementEvents(ByReader, v, k) + [EndArray(|v.elements|)], NoError)
    decreases v, |v.elements| - k, 0
  {
    hide ParseValue, EventsOf, ParseElements, EndsInteger, TextOf, ElementTail, ElementEvents, StartsValue;
    var n := |v.elements|;
    var e := v.elements[k];
    var tail := ElementTail(st, v, k + 1, depth, post);
    ElementTailShape(st, v, k + 1, depth, post);
    CommaEndsInteger(tail);
    ReadsValue(cf, st, e, depth + 1, tail, events);
    ElementEventsFrom(v, k);
    var events1 := events + EventsOf(ByReader, e);
    if k + 1 == n {
      LastElement(cf, Progress(ElementText(st, v, k, depth, post), events, NoError), k, post);
      assert events + (EventsOf(ByReader, e) + []) == events1;
    } else {
      NextElement(cf, Progress(ElementText(st, v, k, depth, post), events, NoError), k);
      ReadsElements(cf, st, v, k + 1, depth, post, events1);
      Regroup3(events, EventsOf(ByReader, e), ElementEvents(ByReader, v, k + 1));
    }
  }

  lemma ElementEventsFrom(v: Value, k: nat)
    requires v.ArrayValue? && Built(v) && k < |v.elements|
    ensures ElementEvents(ByReader, v, k) ==
              EventsOf(ByReader, v.elements[k]) + (if k + 1 == |v.elements| then [] else ElementEvents(ByReader, v, k + 1))
  {
    hide EventsOf;
  }

  lemma LastElement(cf: Config, s: Progress, k: uint32, post: bytes)
    requires s.error == NoError && AcceptsAll(cf) && k + 1 < SIZE_MODULUS
    requires var s1 := ParseValue(cf, s); s1.error == NoError && SkipSpace(s1.rest) == [RBRACKET] + post
    ensures ParseElements(cf, s, k) == Progress(post, ParseValue(cf, s).events + [EndArray(k + 1)], NoError)
  {
    hide ParseValue, SkipSpace;
    TakeFront([RBRACKET], post);
    assert [RBRACKET][1..] + post == post;
  }

  lemma NextElement(cf: Config, s: Progress, k: uint32)
    requires s.error == NoError && k + 1 < SIZE_MODULUS
    requires var s1 := ParseValue(cf, s); s1.error == NoError && Peek(SkipSpace(s1.rest)) == COMMA
    ensures var s1 := ParseValue(cf, s);
            ParseElements(cf, s, k) ==
              ParseElements(cf, Progress(SkipSpace(Next(SkipSpace(s1.rest))), s1.events, NoError), k + 1)
  {
    hide ParseValue, SkipSpace;
  }

  lemma Regroup3<T>(a: seq<T>, b: seq<T>, c: seq<T>)
    ensures a + b + c == a + (b + c)
  {
  }

  lemma CommaEndsInteger(tail: bytes)
    ensures Peek(tail) == COMMA ==> EndsInteger(tail)
  {
  }

  /** What is left behind the first `k` members. */
  function MemberTail(st: Style, v: Value, k: nat, depth: nat, post: bytes): bytes
    requires v.ObjectValue? && NoDoubles(v) && k <= |v.members|
  {
    MembersText(st, v, k, depth) + (LastLine(st, |v.members|, depth) + ([RCURLY] + post))
  }

  /** What is left behind the name of the member with index `k`: its colon, its value, the other members. */
  function ColonText(st: Style, v: Value, k: nat, depth: nat, post: bytes): bytes
    requires v.ObjectValue? && NoDoubles(v) && k < |v.members|
  {
    [COLON] + (AfterColon(st) + ValueText(st, v, k, depth, post))
  }

  function ValueText(st: Style, v: Value, k: nat, depth: nat, post: bytes): bytes
    requires v.ObjectValue? && NoDoubles(v) && k < |v.members|
  {
    TextOf(st, v.members[k].value, depth + 1) + MemberTail(st, v, k + 1, depth, post)
  }

  function MemberText(st: Style, v: Value, k: nat, depth: nat, post: bytes): bytes
    requires v.ObjectValue? && NoDoubles(v) && k < |v.members|
  {
    Quoted(st, v.members[k].name) + ColonText(st, v, k, depth, post)
  }

  lemma MemberTailShape(st: Style, v: Value, k: nat, depth: nat, post: bytes)
    requires v.ObjectValue? && NoDoubles(v) && k <= |v.members| && ValidStyle(st)
    ensures var tail := MemberTail(st, v, k, depth, post);
            if k == |v.members| then
              SkipSpace(tail) == [RCURLY] + post && EndsInteger(tail)
            else
              var inner := MemberText(st, v, k, depth, post);
              && Peek(inner) == QUOTE
              && (k > 0 ==> Peek(tail) == COMMA && SkipSpace(tail) == tail && SkipSpace(Next(tail)) == inner)
              && (k == 0 ==> SkipSpace(tail) == inner)
  {
    hide TextOf, Between, LastLine, EndsInteger, Quoting.WriteBody, ColonText;
    var n := |v.members|;
    var tail := MemberTail(st, v, k, depth, post);
    if k == n {
      BeforeBracket(st, n, depth, RCURLY, post);
      assert tail == LastLine(st, n, depth) + ([RCURLY] + post);
    } else {
      var m := v.members[k];
      var inner := MemberText(st, v, k, depth, post);
      TakeFront(Quoted(st, m.name), ColonText(st, v, k, depth, post));
      BeforeItem(st, k, depth + 1, inner);
      MembersTextShape(st, v, k, depth, post);
    }
  }

  lemma MembersTextShape(st: Style, v: Value, k: nat, depth: nat, post: bytes)
    requires v.ObjectValue? && NoDoubles(v) && k < |v.members|
    ensures MemberTail(st, v, k, depth, post) == Between(st, k, depth + 1) + MemberText(st, v, k, depth, post)
  {
    hide TextOf, Between, LastLine, Quoted, AfterColon;
    var m := v.members[k];
    Regroup6(Between(st, k, depth + 1), Quoted(st, m.name), [COLON], AfterColon(st), TextOf(st, m.value, depth + 1),
             MembersText(st, v, k + 1, depth), LastLine(st, |v.members|, depth) + ([RCURLY] + post));
  }

  lemma Regroup6(a: bytes, b: bytes, c: bytes, d: bytes, e: bytes, f: bytes, g: bytes)
    ensures a + b + (c + d) + e + f + g == a + (b + (c + (d + (e + (f + g)))))
  {
  }

  /** From the colon to the value. */
  lemma ColonShape(st: Style, v: Value, k: nat, depth: nat, post: bytes)
    requires v.ObjectValue? && NoDoubles(v) && k < |v.members| && ValidStyle(st)
    ensures var text := ColonText(st, v, k, depth, post);
            Peek(text) == COLON && SkipSpace(text) == text &&
            SkipSpace(Next(text)) == ValueText(st, v, k, depth, post)
  {
    hide TextOf, MemberTail, NewLine, AfterColon, StartsValue;
    var value := ValueText(st, v, k, depth, post);
    TextStarts(st, v.members[k].value, depth + 1);
    TakeFront(TextOf(st, v.members[k].value, depth + 1), MemberTail(st, v, k + 1, depth, post));
    NotSpace(Peek(value));
    Skips(st, depth, value);
    TakeFront([COLON], AfterColon(st) + value);
    assert [COLON][1..] + (AfterColon(st) + value) == AfterColon(st) + value;
  }

  lemma {:induction false} ReadsObject(cf: Config, st: Style, v: Value, depth: nat, post: bytes, events: seq<Event>)
    requires v.ObjectValue?
    requires ValidStyle(st) && AcceptsAll(cf) && Survives(cf, st, v)
    ensures ParseValue(cf, Progress(TextOf(st, v, depth) + post, events, NoError)) ==
              Progress(post, events + EventsOf(ByReader, v), NoError)
    decreases v, Width(v), 2
  {
    hide ParseValue, TextOf, EventsOf, MemberTail, MemberText;
    var tail := MemberTail(st, v, 0, depth, post);
    ObjectText(st, v, depth, post);
    MemberTailShape(st, v, 0, depth, post);
    OpensObject(cf, tail, events);
    if v.members == [] {
      ClosesObject(cf, SkipSpace(tail), events + [StartObject], post);
    } else {
      ReadsMembers(cf, st, v, 0, depth, post, events + [StartObject]);
    }
    ObjectEvents(v, events);
  }

  lemma ObjectText(st: Style, v: Value, depth: nat, post: bytes)
    requires v.ObjectValue? && NoDoubles(v)
    ensures TextOf(st, v, depth) + post == [LCURLY] + MemberTail(st, v, 0, depth, post)
  {
    hide MembersText, LastLine;
    var text, last := MembersText(st, v, 0, depth), LastLine(st, |v.members|, depth);
    assert [LCURLY] + text + last + [RCURLY] + post == [LCURLY] + (text + (last + ([RCURLY] + post)));
  }

  lemma ObjectEvents(v: Value, events: seq<Event>)
    requires v.ObjectValue? && Built(v)
    ensures events + EventsOf(ByReader, v) ==
              events + [StartObject] + MemberEvents(ByReader, v, 0) + [EndObject(|v.members|)]
    ensures v.members == [] ==> events + EventsOf(ByReader, v) == events + [StartObject] + [EndObject(0)]
  {
  }

  lemma OpensObject(cf: Config, tail: bytes, events: seq<Event>)
    requires AcceptsAll(cf)
    ensures ParseValue(cf, Progress([LCURLY] + tail, events, NoError)) ==
              var s := Progress(SkipSpace(tail), events + [StartObject], NoError);
              if Peek(s.rest) == RCURLY then Emit(cf, s.(rest := Next(s.rest)), EndObject(0)) else ParseMembers(cf, s, 0)
  {
    hide ParseMembers, ParseNumber, ParseString, ParseLiteral, ParseArray, Emit, SkipSpace;
    TakeFront([LCURLY], tail);
    assert [LCURLY][1..] + tail == tail;
    EmitAll(cf, Progress(tail, events, NoError), StartObject);
  }

  lemma ClosesObject(cf: Config, rest: bytes, events: seq<Event>, post: bytes)
    requires AcceptsAll(cf) && rest == [RCURLY] + post
    ensures Peek(rest) == RCURLY
    ensures Emit(cf, Progress(Next(rest), events, NoError), EndObject(0)) == Progress(post, events + [EndObject(0)], NoError)
  {
    TakeFront([RCURLY], post);
    assert [RCURLY][1..] + post == post;
  }

  /** The name of a member, its colon and its value. */
  lemma {:induction false} ReadsMember(cf: Config, st: Style, v: Value, k: nat, depth: nat, post: bytes, events: seq<Event>)
    requires v.ObjectValue? && k < |v.members|
    requires ValidStyle(st) && AcceptsAll(cf) && Survives(cf, st, v)
    ensures var s := Progress(MemberText(st, v, k, depth, post), events, NoError);
            var s1 := ParseString(cf, s, true);
            var s2 := Skip(s1);
            var s3 := Skip(s2.(rest := Next(s2.rest)));
            && Peek(s.rest) == QUOTE && s1.error == NoError && Peek(s2.rest) == COLON
            && ParseValue(cf, s3) ==
                 Progress(MemberTail(st, v, k + 1, depth, post),
                          events + [Key(v.members[k].name)] + EventsOf(ByReader, v.members[k].value), NoError)
    decreases v, |v.members| - k, 0
  {
    hide ParseValue, ParseString, EventsOf, EndsInteger, TextOf, MemberTail, Quoted, ColonText;
    var m := v.members[k];
    ReadsQuoted(cf, st, m.name, ColonText(st, v, k, depth, post), events, true);
    TakeFront(Quoted(st, m.name), ColonText(st, v, k, depth, post));
    ColonShape(st, v, k, depth, post);
    MemberTailShape(st, v, k + 1, depth, post);
    CommaEndsInteger(MemberTail(st, v, k + 1, depth, post));
    ReadsValue(cf, st, m.value, depth + 1, MemberTail(st, v, k + 1, depth, post), events + [Key(m.name)]);
  }

  lemma {:induction false} ReadsMembers(cf: Config, st: Style, v: Value, k: nat, depth: nat, post: bytes, events: seq<Event>)
    requires v.ObjectValue? && k < |v.members|
    requires ValidStyle(st) && AcceptsAll(cf) && Survives(cf, st, v)
    ensures ParseMembers(cf, Progress(MemberText(st, v, k, depth, post), events, NoError), k) ==
              Progress(post, events + MemberEvents(ByReader, v, k) + [EndObject(|v.members|)], NoError)
    decreases v, |v.members| - k, 1
  {
    hide ParseValue, ParseString, EventsOf, ParseMembers, MemberEvents, EndsInteger, TextOf, MemberTail, MemberText;
    var n := |v.members|;
    var m := v.members[k];
    var s := Progress(MemberText(st, v, k, depth, post), events, NoError);
    MemberTailShape(st, v, k + 1, depth, post);
    ReadsMember(cf, st, v, k, depth, post, events);
    MemberEventsFrom(v, k);
    var events1 := events + [Key(m.name)] + EventsOf(ByReader, m.value);
    if k + 1 == n {
      LastMember(cf, s, k, post);
      Regroup3(events, [Key(m.name)], EventsOf(ByReader, m.value));
      assert [Key(m.name)] + EventsOf(ByReader, m.value) + [] == [Key(m.name)] + EventsOf(ByReader, m.value);
    } else {
      NextMember(cf, s, k);
      ReadsMembers(cf, st, v, k + 1, depth, post, events1);
      Regroup3(events, [Key(m.name)], EventsOf(ByReader, m.value));
      Regroup3(events, [Key(m.name)] + EventsOf(ByReader, m.value), MemberEvents(ByReader, v, k + 1));
    }
  }

  lemma MemberEventsFrom(v: Value, k: nat)
    requires v.ObjectValue? && Built(v) && k < |v.members|
    ensures MemberEvents(ByReader, v, k) ==
              [Key(v.members[k].name)] + EventsOf(ByReader, v.members[k].value)
              + (if k + 1 == |v.members| then [] else MemberEvents(ByReader, v, k + 1))
  {
    hide EventsOf;
  }

  /** Where ParseMembers stands after the value of the member it begins with. */
  function AfterMember(cf: Config, s: Progress): Progress
    requires s.error == NoError && s.rest != []
    requires ParseString(cf, s, true).error == NoError
  {
    var s2 := Skip(ParseString(cf, s, true));
    ParseValue(cf, Skip(s2.(rest := Next(s2.rest))))
  }

  lemma LastMember(cf: Config, s: Progress, k: uint32, post: bytes)
    requires s.error == NoError && AcceptsAll(cf) && k + 1 < SIZE_MODULUS
    requires Peek(s.rest) == QUOTE && ParseString(cf, s, true).error == NoError
    requires Peek(SkipSpace(ParseString(cf, s, true).rest)) == COLON
    requires AfterMember(cf, s).error == NoError && SkipSpace(AfterMember(cf, s).rest) == [RCURLY] + post
    ensures ParseMembers(cf, s, k) == Progress(post, AfterMember(cf, s).events + [EndObject(k + 1)], NoError)
  {
    hide ParseValue, ParseString, SkipSpace;
    TakeFront([RCURLY], post);
    assert [RCURLY][1..] + post == post;
  }

  lemma NextMember(cf: Config, s: Progress, k: uint32)
    requires s.error == NoError && k + 1 < SIZE_MODULUS
    requires Peek(s.rest) == QUOTE && ParseString(cf, s, true).error == NoError
    requires Peek(SkipSpace(ParseString(cf, s, true).rest)) == COLON
    requires AfterMember(cf, s).error == NoError && Peek(SkipSpace(AfterMember(cf, s).rest)) == COMMA
    ensures var s1 := AfterMember(cf, s);
            ParseMembers(cf, s, k) ==
              ParseMembers(cf, Progress(SkipSpace(Next(SkipSpace(s1.rest))), s1.events, NoError), k + 1)
  {
    hide ParseValue, ParseString, SkipSpace;
  }

  // ---------------------------------------------------------------- the theorems

  /** What a fresh Writer or PrettyWriter produces for a value, and whether it accepted every event. */
  function Print(st: Style, v: Value): (bytes, bool)
    requires Built(v)
  {
    var (w, ok) := Accept(WriterSpec.Step, WriterSpec.WriterState(st, [], [], false), v);
    (w.os, ok)
  }

  lemma PrintsText(cf: Config, st: Style, v: Value)
    requires Survives(cf, st, v)
    ensures Print(st, v) == (TextOf(st, v, 0), true)
  {
    var w := WriterSpec.WriterState(st, [], [], false);
    AcceptSendsEvents(WriterSpec.Step, w, v);
    WriterSpec.WritesText(w, v);
    hide TextOf;
    assert [] + TextOf(st, v, 0) == TextOf(st, v, 0);
  }

  /** Both parsers read a printed value back as the events of that value, all of the text and no error. */
  lemma ParseOfPrint(cf: Config, st: Style, v: Value)
    requires ValidStyle(st) && AcceptsAll(cf) && Survives(cf, st, v)
    ensures Print(st, v).1
    ensures ParseRecursive(cf, Print(st, v).0) == Progress([], EventsOf(ByReader, v), NoError)
    ensures Automaton.ParseIterative(cf, Print(st, v).0) == Progress([], EventsOf(ByReader, v), NoError)
  {
    hide ParseValue, TextOf, EventsOf, Print, StartsValue;
    var text := TextOf(st, v, 0);
    PrintsText(cf, st, v);
    TextStarts(st, v, 0);
    NotSpace(text[0]);
    assert text + [] == text;
    ReadsValue(cf, st, v, 0, [], []);
    assert [] + EventsOf(ByReader, v) == EventsOf(ByReader, v);
    var r := Progress([], EventsOf(ByReader, v), NoError);
    assert ParseValue(cf, Progress(text, [], NoError)) == r;
    assert Skip(Progress(text, [], NoError)) == Progress(text, [], NoError);
    assert Skip(r) == r;
    assert ParseRecursive(cf, text) == r;
    Equivalence.ParsersAgree(cf, text);
  }

  /** Printing a value and parsing the text into a document gives the same value back, in one stack slot: the same
      members in the same order, the same numbers with the same flags, whichever parser reads it. */
  lemma DocumentRoundTrip(cf: Config, st: Style, v: Value)
    requires ValidStyle(st) && AcceptsAll(cf) && Survives(cf, st, v)
    ensures Feed(Document.Step, [], ParseRecursive(cf, Print(st, v).0).events) == ([v], true)
    ensures Feed(Document.Step, [], Automaton.ParseIterative(cf, Print(st, v).0).events) == ([v], true)
  {
    hide Print, EventsOf, Feed, ParseRecursive, Automaton.ParseIterative;
    ParseOfPrint(cf, st, v);
    Document.EventsPushValue(ByReader, [], v);
    assert [] + [v] == [v];
  }
}
