/** Both parsers report exactly what is wrong with a text (reader.h, section 2 of RFC 4627). */
module ReadsFaults {
  import opened Streams
  import opened Events
  import opened ReaderSpec
  import opened Json
  import opened ReadsJson
  import opened Faults
  import BadNumbers
  import BadStrings

  // ---------------------------------------------------------------- parts of a text

  lemma SkipsTo(gap: bytes, tail: bytes)
    requires AllBlank(gap) && NoBlank(tail)
    ensures SkipSpace(gap + tail) == tail
  {
    if tail == [] {
      assert gap + tail == gap;
      AllSkipped(gap);
    } else {
      SkipsBlank(gap, tail);
    }
  }

  lemma {:induction false} AllSkipped(gap: bytes)
    requires AllBlank(gap)
    ensures SkipSpace(gap) == []
    decreases |gap|
  {
    if gap != [] {
      assert IsBlank(gap[0]);
      AllSkipped(gap[1..]);
    }
  }

  lemma AfterFirst(c: byte, tail: bytes)
    ensures Peek([c] + tail) == c && Next([c] + tail) == tail
  {
    TakeFront([c], tail);
    assert [c][1..] + tail == tail;
  }

  lemma NoBlankPeek(tail: bytes)
    requires NoBlank(tail)
    ensures !IsBlank(Peek(tail)) && (tail != [] ==> tail[0] == Peek(tail))
  {
  }

  /** A fault begins with no whitespace. */
  lemma FaultStarts(cf: Config, f: Fault)
    requires ValidFault(cf, f)
    ensures NoBlank(FaultText(f))
  {
    hide ValidTextFault, ValidElementsFault, ValidMembersFault, TextFaultText, ElementsFaultText, MembersFaultText;
    if f.BadNumber? {
      BadNumbers.NumberFails(cf, f.number, []);
    }
  }

  lemma ElementsFaultStarts(cf: Config, f: ElementsFault)
    requires ValidElementsFault(cf, f)
    ensures NoBlank(ElementsFaultText(f))
  {
    hide Spell, Valid, ValidFault, FaultText;
    match f
    case WrongElement(fault) => FaultStarts(cf, fault);
    case NoComma(value, _, _) => Starts(cf, value);
    case ElementThen(value, _, _, _) => Starts(cf, value);
  }

  lemma MembersFaultStarts(cf: Config, f: MembersFault)
    requires ValidMembersFault(cf, f)
    ensures NoBlank(MembersFaultText(f)) && (Peek(MembersFaultText(f)) == QUOTE <==> !f.NoName?)
  {
    hide Spell, Valid, ValidFault, FaultText, TextFaultText, PiecesText, ValidPieces, ValidTextFault;
  }

  // ---------------------------------------------------------------- values that are no arrays or objects

  lemma ReadsNoValue(cf: Config, tail: bytes, events: seq<Event>)
    requires StartsNothing(Peek(tail))
    ensures ParseValue(cf, Progress(tail, events, NoError)) == Progress(tail, events, ValueInvalid)
  {
    hide ParseFraction, ParseExponent, NumberEvent, ParseObject, ParseArray, ParseString, ParseLiteral;
  }

  lemma {:induction false} TakesSome(tail: bytes, lit: bytes)
    requires forall i | 0 <= i < |lit| :: lit[i] != 0
    ensures TakeAll(tail, lit).ok <==> lit <= tail
    decreases |lit|
  {
    if lit != [] {
      TakesSome(Next(tail), lit[1..]);
      assert lit == [lit[0]] + lit[1..];
      assert tail != [] ==> tail == [tail[0]] + tail[1..];
    }
  }

  lemma WordFails(cf: Config, tail: bytes, word: bytes, lit: bytes, e: Event, events: seq<Event>)
    requires lit != [] && word != [] && word == [word[0]] + lit && Misspelled(tail, word) && forall i | 0 <= i < |lit| :: lit[i] != 0
    ensures var r := ParseLiteral(cf, Progress(tail, events, NoError), lit, e); r.error == ValueInvalid && r.events == events
  {
    hide TakeAll;
    TakesSome(Next(tail), lit);
    assert tail == [tail[0]] + Next(tail);
  }

  lemma ReadsBadWord(cf: Config, tail: bytes, events: seq<Event>)
    requires ValidFault(cf, BadWord(tail))
    ensures var r := ParseValue(cf, Progress(tail, events, NoError)); r.error == ValueInvalid && r.events == events
    ensures Peek(tail) in {0x6E, 0x74, 0x66}
  {
    hide ParseNumber, ParseObject, ParseArray, ParseString, ParseLiteral, Misspelled;
    assert WORDS[0] == [0x6E] + ULL && WORDS[1] == [0x74] + RUE && WORDS[2] == [0x66] + ALSE;
    if Misspelled(tail, WORDS[0]) {
      WordStarts(tail, WORDS[0]);
      WordFails(cf, tail, WORDS[0], ULL, Null, events);
    } else if Misspelled(tail, WORDS[1]) {
      WordStarts(tail, WORDS[1]);
      WordFails(cf, tail, WORDS[1], RUE, Bool(true), events);
    } else {
      WordStarts(tail, WORDS[2]);
      WordFails(cf, tail, WORDS[2], ALSE, Bool(false), events);
    }
  }

  lemma WordStarts(tail: bytes, word: bytes)
    requires word != [] && Misspelled(tail, word)
    ensures Peek(tail) == word[0]
  {
  }

  lemma ReadsBadText(cf: Config, f: TextFault, events: seq<Event>, isKey: bool)
    requires ValidTextFault(cf.validate, f) && TextFaultCode(f) != NoError
    ensures Peek([QUOTE] + TextFaultText(f)) == QUOTE
    ensures var r := ParseString(cf, Progress([QUOTE] + TextFaultText(f), events, NoError), isKey);
            r.error == TextFaultCode(f) && r.events == events
  {
    hide ScanString, TextFaultText, TextFaultCode, ValidTextFault;
    AfterFirst(QUOTE, TextFaultText(f));
    BadStrings.TextFails(cf.validate, f, []);
  }

  predicate IsScalar(f: Fault) {
    !f.BadArray? && !f.BadObject?
  }

  /** A fault that is not within brackets. */
  lemma ReadsScalarFault(cf: Config, f: Fault, events: seq<Event>)
    requires ValidFault(cf, f) && IsScalar(f)
    ensures var r := ParseValue(cf, Progress(FaultText(f), events, NoError));
            r.error == FaultCode(cf, f, false, true) && r.events == events
    ensures !f.NoValue? ==> Peek(FaultText(f)) !in {0, LBRACKET, LCURLY, RBRACKET, RCURLY, COMMA, COLON}
    ensures f.NoValue? ==> Peek(FaultText(f)) !in {LBRACKET, LCURLY}
  {
    hide ParseNumber, ParseLiteral, ParseString, ParseObject, ParseArray, TextFaultText, TextFaultCode, ValidTextFault,
      NumberFaultText, NumberFaultCode, ValidNumberFault, Misspelled;
    match f
    case NoValue(tail) => ReadsNoValue(cf, tail, events);
    case BadWord(tail) => ReadsBadWord(cf, tail, events);
    case BadNumber(number) => BadNumbers.NumberFails(cf, number, events);
    case BadText(text) => ReadsBadText(cf, text, events, false);
  }

  /** Each of them is an error. */
  lemma {:induction false} CodeIsError(cf: Config, f: Fault, iterative: bool, inside: bool)
    requires ValidFault(cf, f)
    ensures FaultCode(cf, f, iterative, inside) != NoError
    decreases f
  {
    hide ValidTextFault, NumberFaultText, Misspelled, AllBlank, ElementsFaultText, MembersFaultText, TextFaultCode,
      WholeAccepted, FractionAccepted, ValidNumberFault;
    match f
    case BadArray(_, elements) => ElementsCodeIsError(cf, elements, iterative);
    case BadObject(_, members) => MembersCodeIsError(cf, members, iterative);
    case _ =>
  }

  lemma {:induction false} ElementsCodeIsError(cf: Config, f: ElementsFault, iterative: bool)
    requires ValidElementsFault(cf, f)
    ensures ElementsFaultCode(cf, f, iterative) != NoError
    decreases f
  {
    hide ValidFault, FaultCode, Valid, Ends;
    match f
    case WrongElement(fault) => CodeIsError(cf, fault, iterative, true);
    case NoComma(_, _, _) =>
    case ElementThen(_, _, _, more) => ElementsCodeIsError(cf, more, iterative);
  }

  lemma {:induction false} MembersCodeIsError(cf: Config, f: MembersFault, iterative: bool)
    requires ValidMembersFault(cf, f)
    ensures MembersFaultCode(cf, f, iterative) != NoError
    decreases f
  {
    hide ValidFault, FaultCode, Valid, Ends, TextFaultCode;
    match f
    case WrongValue(_, _, _, fault) => CodeIsError(cf, fault, iterative, true);
    case MemberThen(_, _, _, _, _, _, more) => MembersCodeIsError(cf, more, iterative);
    case _ =>
  }

  lemma EventsTogether(a: seq<Event>, b: seq<Event>, c: seq<Event>)
    ensures a + (b + c) == a + b + c
  {
  }

  // ---------------------------------------------------------------- the recursive parser

  lemma {:induction false} ReadsFault(cf: Config, f: Fault, inside: bool, events: seq<Event>)
    requires AcceptsAll(cf) && ValidFault(cf, f)
    ensures var r := ParseValue(cf, Progress(FaultText(f), events, NoError));
            r.error == FaultCode(cf, f, false, inside) && r.events == events + FaultMeans(cf, f)
    decreases f, 0
  {
    hide ParseValue, ParseElements, ParseMembers, ElementsFaultText, MembersFaultText, TextFaultText, TextFaultCode,
      ValidTextFault, NumberFaultText, NumberFaultCode, ValidNumberFault, Misspelled, SkipSpace, AllBlank,
      ValidElementsFault, ValidMembersFault, ElementsFaultMeans, MembersFaultMeans, ElementsFaultCode, MembersFaultCode;
    match f
    case BadArray(gap, elements) =>
      var tail := ElementsFaultText(elements);
      ElementsFaultStarts(cf, elements);
      OpensArray(cf, gap + tail, events);
      SkipsTo(gap, tail);
      ReadsElementsFault(cf, elements, 0, events + [StartArray]);
      EventsTogether(events, [StartArray], ElementsFaultMeans(cf, elements));
    case BadObject(gap, members) =>
      var tail := MembersFaultText(members);
      MembersFaultStarts(cf, members);
      OpensObject(cf, gap + tail, events);
      SkipsTo(gap, tail);
      ReadsMembersFault(cf, members, 0, events + [StartObject]);
      EventsTogether(events, [StartObject], MembersFaultMeans(cf, members));
    case _ =>
      ReadsScalarFault(cf, f, events);
      assert events + [] == events;
  }

  lemma ElementFails(cf: Config, s: Progress, count: uint32)
    requires s.error == NoError && ParseValue(cf, s).error != NoError
    ensures ParseElements(cf, s, count) == ParseValue(cf, s)
  {
    hide ParseValue;
  }

  lemma {:induction false} ReadsElementsFault(cf: Config, f: ElementsFault, count: uint32, events: seq<Event>)
    requires AcceptsAll(cf) && ValidElementsFault(cf, f)
    ensures var r := ParseElements(cf, Progress(ElementsFaultText(f), events, NoError), count);
            r.error == ElementsFaultCode(cf, f, false) && r.events == events + ElementsFaultMeans(cf, f)
    decreases f, 0
  {
    hide ParseElements, ParseValue, Spell, Means, SkipSpace, AllBlank, Ends, FaultText, FaultCode, FaultMeans, ValidFault, Valid;
    var s := Progress(ElementsFaultText(f), events, NoError);
    match f
    case WrongElement(fault) =>
      ReadsFault(cf, fault, true, events);
      CodeIsError(cf, fault, false, true);
      ElementFails(cf, s, count);
    case NoComma(value, after, tail) =>
      ReadsValue(cf, value, after + tail, events);
      SkipsTo(after, tail);
      ElementsTurn(cf, s, count);
    case ElementThen(value, after, next, more) =>
      var behind := next + ElementsFaultText(more);
      CommaEnds(after, COMMA, behind, value);
      ReadsValue(cf, value, after + ([COMMA] + behind), events);
      ElementsTurn(cf, s, count);
      ElementsFaultStarts(cf, more);
      SkipsTo(next, ElementsFaultText(more));
      ReadsElementsFault(cf, more, IncSize(count), events + Means(cf, value));
      EventsTogether(events, Means(cf, value), ElementsFaultMeans(cf, more));
  }

  /** A name, its colon and the whitespace around it are read. */
  lemma NameThen(cf: Config, name: Pieces, colon: bytes, gap: bytes, rest: bytes, events: seq<Event>)
    requires AcceptsAll(cf) && ValidPieces(cf.validate, name) && AllBlank(colon) && AllBlank(gap) && NoBlank(rest)
    ensures var s := Progress(StringText(name) + (colon + ([COLON] + (gap + rest))), events, NoError);
            && Peek(s.rest) == QUOTE && ParseString(cf, s, true).error == NoError
            && Peek(SkipSpace(ParseString(cf, s, true).rest)) == COLON
            && BehindColon(cf, s) == Progress(rest, events + [Key(PiecesMean(cf.validate, name))], NoError)
  {
    hide ParseString, SkipSpace, AllBlank, StringText, PiecesMean, ValidPieces;
    var tail := gap + rest;
    ReadsText(cf, name, colon + ([COLON] + tail), events, true);
    SkipsBlank(colon, [COLON] + tail);
    AfterFirst(COLON, tail);
    SkipsTo(gap, rest);
  }

  lemma NameFails(cf: Config, s: Progress, count: uint32)
    requires s.error == NoError && Peek(s.rest) == QUOTE && ParseString(cf, s, true).error != NoError
    ensures ParseMembers(cf, s, count) == ParseString(cf, s, true)
  {
    hide ParseString;
  }

  lemma ColonFails(cf: Config, s: Progress, count: uint32)
    requires s.error == NoError && Peek(s.rest) == QUOTE && ParseString(cf, s, true).error == NoError
    requires Peek(SkipSpace(ParseString(cf, s, true).rest)) != COLON
    ensures ParseMembers(cf, s, count).error == ObjectMissColon
    ensures ParseMembers(cf, s, count).events == ParseString(cf, s, true).events
  {
    hide ParseString;
  }

  lemma ValueFails(cf: Config, s: Progress, count: uint32)
    requires s.error == NoError && Peek(s.rest) == QUOTE && ParseString(cf, s, true).error == NoError
    requires Peek(SkipSpace(ParseString(cf, s, true).rest)) == COLON && ParseValue(cf, BehindColon(cf, s)).error != NoError
    ensures ParseMembers(cf, s, count) == ParseValue(cf, BehindColon(cf, s))
  {
    hide ParseString, ParseValue;
  }

  lemma {:induction false} ReadsMembersFault(cf: Config, f: MembersFault, count: uint32, events: seq<Event>)
    requires AcceptsAll(cf) && ValidMembersFault(cf, f)
    ensures var r := ParseMembers(cf, Progress(MembersFaultText(f), events, NoError), count);
            r.error == MembersFaultCode(cf, f, false) && r.events == events + MembersFaultMeans(cf, f)
    decreases f, 0
  {
    hide ParseMembers, ParseValue, ParseString, Spell, Means, SkipSpace, AllBlank, Ends, FaultText, FaultCode, FaultMeans,
      ValidFault, Valid, StringText, PiecesMean, ValidPieces, TextFaultText, TextFaultCode, ValidTextFault;
    var s := Progress(MembersFaultText(f), events, NoError);
    match f
    case NoName(tail) => ReadsNoName(cf, tail, count, events);
    case WrongName(text) =>
      ReadsBadText(cf, text, events, true);
      NameFails(cf, s, count);
      assert events + [] == events;
    case NoColon(name, colon, tail) =>
      ReadsText(cf, name, colon + tail, events, true);
      SkipsTo(colon, tail);
      ColonFails(cf, s, count);
    case WrongValue(name, colon, gap, fault) =>
      var key := [Key(PiecesMean(cf.validate, name))];
      FaultStarts(cf, fault);
      NameThen(cf, name, colon, gap, FaultText(fault), events);
      ReadsFault(cf, fault, true, events + key);
      CodeIsError(cf, fault, false, true);
      ValueFails(cf, s, count);
      EventsTogether(events, key, FaultMeans(cf, fault));
    case NoCommaBehind(name, colon, gap, value, after, tail) =>
      var key := [Key(PiecesMean(cf.validate, name))];
      MemberIsRead(cf, name, colon, gap, value, after + tail, count, events);
      SkipsTo(after, tail);
      EventsTogether(events, key, Means(cf, value));
    case MemberThen(name, colon, gap, value, after, next, more) =>
      var key := [Key(PiecesMean(cf.validate, name))];
      var behind := next + MembersFaultText(more);
      CommaEnds(after, COMMA, behind, value);
      MemberIsRead(cf, name, colon, gap, value, after + ([COMMA] + behind), count, events);
      MembersFaultStarts(cf, more);
      SkipsTo(next, MembersFaultText(more));
      ReadsMembersFault(cf, more, IncSize(count), events + key + Means(cf, value));
      EventsTogether(events, key, Means(cf, value) + MembersFaultMeans(cf, more));
      EventsTogether(events + key, Means(cf, value), MembersFaultMeans(cf, more));
  }

  lemma ReadsNoName(cf: Config, tail: bytes, count: uint32, events: seq<Event>)
    requires Peek(tail) != QUOTE
    ensures ParseMembers(cf, Progress(tail, events, NoError), count) == Progress(tail, events, ObjectMissName)
  {
  }

  /** A member is read; what follows it decides how the loop goes on. */
  lemma MemberIsRead(cf: Config, name: Pieces, colon: bytes, gap: bytes, value: Json, behind: bytes, count: uint32,
      events: seq<Event>)
    requires AcceptsAll(cf) && ValidPieces(cf.validate, name) && AllBlank(colon) && AllBlank(gap)
    requires Valid(cf, value) && Ends(value, behind)
    ensures var s := Progress(StringText(name) + (colon + ([COLON] + (gap + (Spell(value) + behind)))), events, NoError);
            var events' := events + [Key(PiecesMean(cf.validate, name))] + Means(cf, value);
            var rest := SkipSpace(behind);
            ParseMembers(cf, s, count) ==
              if Peek(rest) == COMMA then
                ParseMembers(cf, Progress(SkipSpace(Next(rest)), events', NoError), IncSize(count))
              else if Peek(rest) == RCURLY then
                Progress(Next(rest), events' + [EndObject(IncSize(count))], NoError)
              else Progress(Next(rest), events', ObjectMissCommaOrCurlyBracket)
  {
    hide ParseMembers, ParseValue, ParseString, Spell, Means, SkipSpace, AllBlank, Ends, Valid, StringText, PiecesMean,
      ValidPieces;
    var s := Progress(StringText(name) + (colon + ([COLON] + (gap + (Spell(value) + behind)))), events, NoError);
    Starts(cf, value);
    TakeFront(Spell(value), behind);
    NameThen(cf, name, colon, gap, Spell(value) + behind, events);
    ReadsValue(cf, value, behind, events + [Key(PiecesMean(cf.validate, name))]);
    MembersTurn(cf, s, count);
  }
}
