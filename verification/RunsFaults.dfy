/** The iterative parser, too, reports exactly what is wrong with a text, as far as its table tells it (reader.h). */
module RunsFaults {
  import opened Streams
  import opened Events
  import opened ReaderSpec
  import opened Json
  import opened ReadsJson
  import opened Faults
  import opened ReadsFaults
  import opened Automaton
  import opened Equivalence

  /** Where no value begins, the table has no move. */
  lemma NoMove(cf: Config, q: State, stack: seq<Frame>, s: Progress)
    requires StackFits(q, stack) && s.error == NoError && ExpectsValue(q, Peek(s.rest))
    requires Peek(s.rest) in {0, RBRACKET, RCURLY, COMMA, COLON}
    ensures Run(cf, q, stack, s) == Fail(s, if q.Start? then DocumentEmpty else UnspecificSyntaxError)
  {
    hide ParseNumber, ParseString, ParseLiteral, ParseValue, Emit, Open, Close;
  }

  lemma {:induction false} RunScalarFault(cf: Config, q: State, stack: seq<Frame>, f: Fault, events: seq<Event>)
    requires ValidFault(cf, f) && IsScalar(f) && StackFits(q, stack) && ExpectsValue(q, Peek(FaultText(f)))
    ensures Run(cf, q, stack, Progress(FaultText(f), events, NoError)).error == FaultCode(cf, f, true, !q.Start?)
  {
    hide Run, ParseValue, FaultText, ValidFault, StackFits;
    var s := Progress(FaultText(f), events, NoError);
    ReadsScalarFault(cf, f, events);
    CodeIsError(cf, f, false, true);
    if Peek(s.rest) in {0, RBRACKET, RCURLY, COMMA, COLON} {
      NoMove(cf, q, stack, s);
      CodeOfNoMove(cf, f, q.Start?);
    } else {
      RunScalar(cf, q, stack, s);
      CodeOfMove(cf, f, !q.Start?);
    }
  }

  lemma CodeOfNoMove(cf: Config, f: Fault, start: bool)
    requires ValidFault(cf, f) && f.NoValue? && Peek(FaultText(f)) in {0, RBRACKET, RCURLY, COMMA, COLON}
    ensures FaultCode(cf, f, true, !start) == if start then DocumentEmpty else UnspecificSyntaxError
  {
  }

  lemma CodeOfMove(cf: Config, f: Fault, inside: bool)
    requires ValidFault(cf, f) && IsScalar(f) && Peek(FaultText(f)) !in {0, RBRACKET, RCURLY, COMMA, COLON}
    ensures FaultCode(cf, f, true, inside) == FaultCode(cf, f, false, true)
  {
    hide ValidTextFault, NumberFaultText, NumberFaultCode, Misspelled, TextFaultCode, TextFaultText, ValidNumberFault;
  }

  /** The move at an opening bracket, when the handler goes along. */
  lemma RunInto(cf: Config, q: State, stack: seq<Frame>, isArray: bool, gap: bytes, tail: bytes, events: seq<Event>)
    requires AcceptsAll(cf) && StackFits(q, stack) && ExpectsValue(q, if isArray then LBRACKET else LCURLY)
    requires AllBlank(gap) && NoBlank(tail)
    ensures var text := [if isArray then LBRACKET else LCURLY] + (gap + tail);
            var stack' := stack + [Frame(Resume(q), 0)];
            var q' := if isArray then ArrayInitial else ObjectInitial;
            && StackFits(q', stack')
            && Run(cf, q, stack, Progress(text, events, NoError))
               == Run(cf, q', stack', Progress(tail, events + [if isArray then StartArray else StartObject], NoError))
  {
    hide Run, Emit, StackFits, SkipSpace, AllBlank;
    var c: byte := if isArray then LBRACKET else LCURLY;
    var s := Progress([c] + (gap + tail), events, NoError);
    AfterFirst(c, gap + tail);
    RunOpen(cf, q, stack, s);
    EmitAll(cf, Advance(s), if isArray then StartArray else StartObject);
    SkipsTo(gap, tail);
  }

  lemma {:induction false} RunFault(cf: Config, q: State, stack: seq<Frame>, f: Fault, events: seq<Event>)
    requires AcceptsAll(cf) && ValidFault(cf, f) && StackFits(q, stack) && ExpectsValue(q, Peek(FaultText(f)))
    ensures Run(cf, q, stack, Progress(FaultText(f), events, NoError)).error == FaultCode(cf, f, true, !q.Start?)
    decreases f, 0
  {
    hide Run, ElementsFaultText, MembersFaultText, ValidElementsFault, ValidMembersFault, ElementsFaultCode, MembersFaultCode,
      StackFits, TextFaultText, NumberFaultText, ValidTextFault, ValidNumberFault, Misspelled, TextFaultCode, NumberFaultCode,
      AllBlank;
    match f
    case BadArray(gap, elements) =>
      ElementsFaultStarts(cf, elements);
      AfterFirst(LBRACKET, gap + ElementsFaultText(elements));
      RunInto(cf, q, stack, true, gap, ElementsFaultText(elements), events);
      RunElementsFault(cf, ArrayInitial, stack + [Frame(Resume(q), 0)], elements, events + [StartArray]);
    case BadObject(gap, members) =>
      MembersFaultStarts(cf, members);
      AfterFirst(LCURLY, gap + MembersFaultText(members));
      RunInto(cf, q, stack, false, gap, MembersFaultText(members), events);
      RunMembersFault(cf, ObjectInitial, stack + [Frame(Resume(q), 0)], members, events + [StartObject]);
    case _ =>
      RunScalarFault(cf, q, stack, f, events);
  }

  /** An element or the value of a member is read, and the automaton stands behind it. */
  lemma RunOver(cf: Config, q: State, stack: seq<Frame>, value: Json, behind: bytes, events: seq<Event>)
    requires AcceptsAll(cf) && Valid(cf, value) && Ends(value, behind)
    requires StackFits(q, stack) && !q.Start? && ExpectsValue(q, Peek(Spell(value) + behind))
    ensures var q' := if q.KeyValueDelimiter? then MemberValue else State.Element;
            && StackFits(q', stack)
            && Run(cf, q, stack, Progress(Spell(value) + behind, events, NoError))
               == Run(cf, q', stack, Progress(SkipSpace(behind), events + Means(cf, value), NoError))
  {
    hide Run, ParseValue, Spell, Means, SkipSpace, Ends, Valid;
    ReadsValue(cf, value, behind, events);
    RunValue(cf, q, stack, Progress(Spell(value) + behind, events, NoError));
  }

  lemma ElementExpected(cf: Config, q: State, value: Json, behind: bytes)
    requires Valid(cf, value) && (q.ArrayInitial? || q.ElementDelimiter? || q.KeyValueDelimiter?)
    ensures ExpectsValue(q, Peek(Spell(value) + behind))
  {
    hide Spell, Valid;
    Starts(cf, value);
    TakeFront(Spell(value), behind);
  }

  lemma {:induction false} RunElementsFault(cf: Config, q: State, stack: seq<Frame>, f: ElementsFault, events: seq<Event>)
    requires AcceptsAll(cf) && ValidElementsFault(cf, f) && StackFits(q, stack)
    requires InArray(q) && ExpectsValue(q, Peek(ElementsFaultText(f)))
    ensures Run(cf, q, stack, Progress(ElementsFaultText(f), events, NoError)).error == ElementsFaultCode(cf, f, true)
    decreases f, 0
  {
    hide Run, Spell, Means, SkipSpace, AllBlank, Ends, FaultText, FaultCode, FaultMeans, ValidFault, Valid, StackFits;
    match f
    case WrongElement(fault) => RunFault(cf, q, stack, fault, events);
    case NoComma(value, after, tail) =>
      RunOver(cf, q, stack, value, after + tail, events);
      SkipsTo(after, tail);
      AfterItem(cf, State.Element, stack, Progress(tail, events + Means(cf, value), NoError));
    case ElementThen(value, after, next, more) =>
      var behind := next + ElementsFaultText(more);
      CommaEnds(after, COMMA, behind, value);
      RunOver(cf, q, stack, value, after + ([COMMA] + behind), events);
      AfterItem(cf, State.Element, stack, Progress([COMMA] + behind, events + Means(cf, value), NoError));
      StillFits(State.Element, ElementDelimiter, stack);
      ElementsFaultStarts(cf, more);
      SkipsTo(next, ElementsFaultText(more));
      RunElementsFault(cf, ElementDelimiter, CountOne(stack), more, events + Means(cf, value));
  }

  lemma StillFits(q: State, q': State, stack: seq<Frame>)
    requires StackFits(q, stack) && ((q.Element? && q'.ElementDelimiter?) || (q.MemberValue? && q'.MemberDelimiter?))
    ensures StackFits(q', CountOne(stack))
  {
  }

  /** From a name to the value behind its colon. */
  lemma RunNameOver(cf: Config, q: State, stack: seq<Frame>, name: Pieces, colon: bytes, gap: bytes, rest: bytes,
      events: seq<Event>)
    requires AcceptsAll(cf) && ValidPieces(cf.validate, name) && AllBlank(colon) && AllBlank(gap) && NoBlank(rest)
    requires StackFits(q, stack) && (q.MemberDelimiter? || q.ObjectInitial?)
    ensures StackFits(KeyValueDelimiter, stack)
    ensures Run(cf, q, stack, Progress(StringText(name) + (colon + ([COLON] + (gap + rest))), events, NoError))
            == Run(cf, KeyValueDelimiter, stack, Progress(rest, events + [Key(PiecesMean(cf.validate, name))], NoError))
  {
    hide Run, ParseString, SkipSpace, AllBlank, StringText, PiecesMean, ValidPieces;
    var s := Progress(StringText(name) + (colon + ([COLON] + (gap + rest))), events, NoError);
    NameThen(cf, name, colon, gap, rest, events);
    RunName(cf, q, stack, s);
  }

  lemma {:induction false} RunMembersFault(cf: Config, q: State, stack: seq<Frame>, f: MembersFault, events: seq<Event>)
    requires AcceptsAll(cf) && ValidMembersFault(cf, f) && StackFits(q, stack)
    requires q.MemberDelimiter? || (q.ObjectInitial? && Peek(MembersFaultText(f)) != RCURLY)
    ensures Run(cf, q, stack, Progress(MembersFaultText(f), events, NoError)).error == MembersFaultCode(cf, f, true)
    decreases f, 0
  {
    hide Run, ParseString, Spell, Means, SkipSpace, AllBlank, Ends, FaultText, FaultCode, FaultMeans, ValidFault, Valid,
      StringText, PiecesMean, ValidPieces, TextFaultText, TextFaultCode, ValidTextFault, StackFits;
    var s := Progress(MembersFaultText(f), events, NoError);
    match f
    case NoName(tail) => RunName(cf, q, stack, s);
    case WrongName(text) =>
      ReadsBadText(cf, text, events, true);
      RunName(cf, q, stack, s);
    case NoColon(name, colon, tail) =>
      ReadsText(cf, name, colon + tail, events, true);
      SkipsTo(colon, tail);
      RunName(cf, q, stack, s);
    case WrongValue(name, colon, gap, fault) =>
      FaultStarts(cf, fault);
      RunNameOver(cf, q, stack, name, colon, gap, FaultText(fault), events);
      RunFault(cf, KeyValueDelimiter, stack, fault, events + [Key(PiecesMean(cf.validate, name))]);
    case NoCommaBehind(name, colon, gap, value, after, tail) =>
      RunMemberOver(cf, q, stack, name, colon, gap, value, after + tail, events);
      SkipsTo(after, tail);
      AfterItem(cf, MemberValue, stack,
                Progress(tail, events + [Key(PiecesMean(cf.validate, name))] + Means(cf, value), NoError));
    case MemberThen(name, colon, gap, value, after, next, more) =>
      var events' := events + [Key(PiecesMean(cf.validate, name))] + Means(cf, value);
      var behind := next + MembersFaultText(more);
      CommaEnds(after, COMMA, behind, value);
      RunMemberOver(cf, q, stack, name, colon, gap, value, after + ([COMMA] + behind), events);
      AfterItem(cf, MemberValue, stack, Progress([COMMA] + behind, events', NoError));
      StillFits(MemberValue, MemberDelimiter, stack);
      MembersFaultStarts(cf, more);
      SkipsTo(next, MembersFaultText(more));
      RunMembersFault(cf, MemberDelimiter, CountOne(stack), more, events');
  }

  lemma RunMemberOver(cf: Config, q: State, stack: seq<Frame>, name: Pieces, colon: bytes, gap: bytes, value: Json,
      behind: bytes, events: seq<Event>)
    requires AcceptsAll(cf) && ValidPieces(cf.validate, name) && AllBlank(colon) && AllBlank(gap)
    requires Valid(cf, value) && Ends(value, behind) && StackFits(q, stack) && (q.MemberDelimiter? || q.ObjectInitial?)
    ensures StackFits(MemberValue, stack)
    ensures Run(cf, q, stack, Progress(StringText(name) + (colon + ([COLON] + (gap + (Spell(value) + behind)))), events, NoError))
            == Run(cf, MemberValue, stack,
                   Progress(SkipSpace(behind), events + [Key(PiecesMean(cf.validate, name))] + Means(cf, value), NoError))
  {
    hide Run, Spell, Means, SkipSpace, AllBlank, Ends, Valid, StringText, PiecesMean, ValidPieces, StackFits;
    Starts(cf, value);
    TakeFront(Spell(value), behind);
    RunNameOver(cf, q, stack, name, colon, gap, Spell(value) + behind, events);
    ElementExpected(cf, KeyValueDelimiter, value, behind);
    RunOver(cf, KeyValueDelimiter, stack, value, behind, events + [Key(PiecesMean(cf.validate, name))]);
  }
}
