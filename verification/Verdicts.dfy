/** Every text is a JSON text or has one of the faults; so both parsers accept exactly the former, and the errors they report
    for the others say exactly what is wrong (reader.h, error/error.h, section 2 of RFC 4627). */
module Verdicts {
  import opened Streams
  import opened Events
  import opened ReaderSpec
  import opened Json
  import opened ReadsJson
  import opened Faults
  import opened ReadsFaults
  import BadNumbers
  import BadStrings
  import Automaton
  import Equivalence
  import RunsFaults

  datatype Judged = Right(t: Json, post: bytes) | Wrong(f: Fault)

  datatype ElementsJudged = RightElements(es: Elements, behind: bytes) | WrongElements(ef: ElementsFault)

  datatype MembersJudged = RightMembers(ms: Members, behind: bytes) | WrongMembers(mf: MembersFault)

  ghost predicate Judges(cf: Config, j: Judged, s: bytes) {
    match j
    case Right(t, post) => Valid(cf, t) && Ends(t, post) && s == Spell(t) + post
    case Wrong(f) => ValidFault(cf, f) && s == FaultText(f)
  }

  ghost predicate JudgesElements(cf: Config, j: ElementsJudged, s: bytes) {
    match j
    case RightElements(es, post) => es.Element? && ValidElements(cf, es) && s == SpellElements(es) + post
    case WrongElements(f) => ValidElementsFault(cf, f) && s == ElementsFaultText(f)
  }

  ghost predicate JudgesMembers(cf: Config, j: MembersJudged, s: bytes) {
    match j
    case RightMembers(ms, post) => ms.Member? && ValidMembers(cf, ms) && s == SpellMembers(ms) + post
    case WrongMembers(f) => ValidMembersFault(cf, f) && s == MembersFaultText(f)
  }

  // ---------------------------------------------------------------- every text is one or the other

  lemma {:induction false} NoMoreBlanks(text: bytes)
    ensures NoBlank(SkipSpace(text)) && |SkipSpace(text)| <= |text|
    decreases |text|
  {
    if text != [] && IsSpace(text[0]) {
      NoMoreBlanks(text[1..]);
    }
  }

  lemma JudgesWord(cf: Config, s: bytes) returns (j: Judged)
    requires Peek(s) in {0x6E, 0x74, 0x66}
    ensures Judges(cf, j, s)
  {
    var t := if Peek(s) == 0x6E then NullText else BoolText(Peek(s) == 0x74);
    var word := Spell(t);
    assert word == if Peek(s) == 0x6E then WORDS[0] else if Peek(s) == 0x74 then WORDS[1] else WORDS[2];
    if word <= s {
      j := Right(t, s[|word|..]);
      assert s == word + s[|word|..];
    } else {
      j := Wrong(BadWord(s));
      assert Misspelled(s, word);
    }
  }

  lemma JudgesText(cf: Config, s: bytes) returns (j: Judged)
    requires Peek(s) == QUOTE
    ensures Judges(cf, j, s)
  {
    hide PiecesText, TextFaultText, ValidTextFault, TextFaultCode, ValidPieces;
    var f := BadStrings.EveryText(cf.validate, s[1..]);
    assert s == [QUOTE] + s[1..];
    if f.Sound? {
      SoundSpells(cf, f);
      j := Right(TextText(f.pieces), f.tail);
    } else {
      BrokenIsError(cf, f);
      j := Wrong(BadText(f));
    }
  }

  lemma SoundSpells(cf: Config, f: TextFault)
    requires f.Sound? && ValidTextFault(cf.validate, f)
    ensures ValidPieces(cf.validate, f.pieces) && [QUOTE] + TextFaultText(f) == StringText(f.pieces) + f.tail
  {
    hide PiecesText, ValidPieces;
    Associate(PiecesText(f.pieces), [QUOTE], f.tail);
    Associate([QUOTE], PiecesText(f.pieces) + [QUOTE], f.tail);
  }

  lemma BrokenIsError(cf: Config, f: TextFault)
    requires ValidTextFault(cf.validate, f) && !f.Sound?
    ensures TextFaultCode(f) != NoError
  {
    hide ValidPieces, TextFaultText;
  }

  lemma JudgesNumber(cf: Config, s: bytes) returns (j: Judged)
    requires Peek(s) == MINUS || IsDigit(Peek(s))
    ensures Judges(cf, j, s)
  {
    hide NumeralText, NumberFaultText, ValidNumeral, Accepted, Stops, ValidNumberFault;
    var k := BadNumbers.EveryNumber(cf, s);
    match k
    case Right(n, post) => j := Right(NumberText(n), post);
    case Wrong(f) => j := Wrong(BadNumber(f));
  }

  lemma {:induction false} EveryValue(cf: Config, s: bytes) returns (j: Judged)
    requires NoBlank(s)
    ensures Judges(cf, j, s)
    decreases |s|, 1
  {
    hide Judges;
    var c := Peek(s);
    if c in {0x6E, 0x74, 0x66} {
      j := JudgesWord(cf, s);
    } else if c == QUOTE {
      j := JudgesText(cf, s);
    } else if c == MINUS || IsDigit(c) {
      j := JudgesNumber(cf, s);
    } else if c == LBRACKET {
      j := EveryArray(cf, s);
    } else if c == LCURLY {
      j := EveryObject(cf, s);
    } else {
      j := Wrong(NoValue(s));
      NothingIs(cf, s);
    }
  }

  lemma NothingIs(cf: Config, s: bytes)
    requires NoBlank(s) && StartsNothing(Peek(s))
    ensures Judges(cf, Wrong(NoValue(s)), s)
  {
  }

  lemma {:induction false} EveryArray(cf: Config, s: bytes) returns (j: Judged)
    requires Peek(s) == LBRACKET
    ensures Judges(cf, j, s)
    decreases |s|, 0
  {
    hide AllBlank, SkipSpace, SpellElements, ValidElements, ElementsFaultText, ValidElementsFault, NoBlank;
    var gap := Blanks(s[1..]);
    var tail := SkipSpace(s[1..]);
    NoMoreBlanks(s[1..]);
    assert s == [LBRACKET] + s[1..];
    if Peek(tail) == RBRACKET {
      NothingIsValid(cf);
      NoElements(cf, NoElement, Next(tail));
      assert tail == [RBRACKET] + Next(tail);
      j := Right(ArrayText(gap, NoElement), Next(tail));
      Bracketed(s, LBRACKET, gap, SpellElements(NoElement), Next(tail));
    } else {
      var k := EveryElements(cf, tail);
      match k
      case RightElements(es, post) =>
        j := Right(ArrayText(gap, es), post);
        Bracketed(s, LBRACKET, gap, SpellElements(es), post);
      case WrongElements(f) => j := Wrong(BadArray(gap, f));
    }
  }

  lemma ShorterBehind(cf: Config, t: Json, post: bytes)
    requires Valid(cf, t)
    ensures |post| < |Spell(t) + post|
  {
    hide Valid, Spell;
    Starts(cf, t);
  }

  lemma {:induction false} EveryElements(cf: Config, s: bytes) returns (j: ElementsJudged)
    requires NoBlank(s)
    ensures JudgesElements(cf, j, s)
    decreases |s|, 2
  {
    hide AllBlank, SkipSpace, Spell, Valid, Ends, FaultText, ValidFault, NoBlank;
    var k := EveryValue(cf, s);
    match k
    case Wrong(f) => j := WrongElements(WrongElement(f));
    case Right(t, post) =>
      ShorterBehind(cf, t, post);
      var after := Blanks(post);
      var tail := SkipSpace(post);
      NoMoreBlanks(post);
      if Peek(tail) == COMMA {
        var next := Blanks(tail[1..]);
        var rest := SkipSpace(tail[1..]);
        NoMoreBlanks(tail[1..]);
        assert tail == [COMMA] + tail[1..];
        var more := EveryElements(cf, rest);
        j := OneMoreElement(cf, s, t, after, next, more, rest);
      } else if Peek(tail) == RBRACKET {
        assert tail == [RBRACKET] + tail[1..];
        j := LastElement(cf, s, t, after, tail[1..]);
      } else {
        j := WrongElements(NoComma(t, after, tail));
      }
  }

  lemma LastElement(cf: Config, s: bytes, t: Json, after: bytes, post: bytes) returns (j: ElementsJudged)
    requires Valid(cf, t) && AllBlank(after) && s == Spell(t) + (after + ([RBRACKET] + post))
    ensures JudgesElements(cf, j, s)
  {
    hide AllBlank, Spell, Valid;
    NothingIsBlank();
    j := RightElements(Element(t, after, [], NoElement), post);
    ReadsJson.ElementThen(j.es, post);
    NothingIsValid(cf);
  }

  lemma OneMoreElement(cf: Config, s: bytes, t: Json, after: bytes, next: bytes, more: ElementsJudged, rest: bytes)
    returns (j: ElementsJudged)
    requires Valid(cf, t) && AllBlank(after) && AllBlank(next) && JudgesElements(cf, more, rest)
    requires s == Spell(t) + (after + ([COMMA] + (next + rest)))
    ensures JudgesElements(cf, j, s)
  {
    hide AllBlank, Spell, Valid, Ends, FaultText, ValidFault, NoBlank;
    match more
    case RightElements(es, post) =>
      j := RightElements(Element(t, after, next, es), post);
      ReadsJson.ElementThen(j.es, post);
    case WrongElements(f) => j := WrongElements(Faults.ElementThen(t, after, next, f));
  }

  lemma {:induction false} EveryObject(cf: Config, s: bytes) returns (j: Judged)
    requires Peek(s) == LCURLY
    ensures Judges(cf, j, s)
    decreases |s|, 0
  {
    hide AllBlank, SkipSpace, SpellMembers, ValidMembers, MembersFaultText, ValidMembersFault, NoBlank;
    var gap := Blanks(s[1..]);
    var tail := SkipSpace(s[1..]);
    NoMoreBlanks(s[1..]);
    assert s == [LCURLY] + s[1..];
    if Peek(tail) == RCURLY {
      NothingIsValid(cf);
      NoMembers(cf, NoMember, Next(tail));
      assert tail == [RCURLY] + Next(tail);
      j := Right(ObjectText(gap, NoMember), Next(tail));
      Bracketed(s, LCURLY, gap, SpellMembers(NoMember), Next(tail));
    } else {
      var k := EveryMembers(cf, tail);
      match k
      case RightMembers(ms, post) =>
        j := Right(ObjectText(gap, ms), post);
        Bracketed(s, LCURLY, gap, SpellMembers(ms), post);
      case WrongMembers(f) => j := Wrong(BadObject(gap, f));
    }
  }

  lemma {:induction false} EveryMembers(cf: Config, s: bytes) returns (j: MembersJudged)
    requires NoBlank(s)
    ensures JudgesMembers(cf, j, s)
    decreases |s|, 2
  {
    hide AllBlank, SkipSpace, StringText, ValidPieces, NoBlank, TextFaultText, ValidTextFault, TextFaultCode;
    if Peek(s) != QUOTE {
      j := WrongMembers(NoName(s));
    } else {
      var f := BadStrings.EveryText(cf.validate, s[1..]);
      assert s == [QUOTE] + s[1..];
      if !f.Sound? {
        BrokenIsError(cf, f);
        j := WrongMembers(WrongName(f));
      } else {
        SoundSpells(cf, f);
        var name, post := f.pieces, f.tail;
        TailIsShorter(name, post);
        var colon := Blanks(post);
        var tail := SkipSpace(post);
        NoMoreBlanks(post);
        if Peek(tail) != COLON {
          j := WrongMembers(NoColon(name, colon, tail));
        } else {
          var gap := Blanks(tail[1..]);
          var rest := SkipSpace(tail[1..]);
          NoMoreBlanks(tail[1..]);
          assert tail == [COLON] + tail[1..];
          j := EveryMemberValue(cf, s, name, colon, gap, rest);
        }
      }
    }
  }

  lemma TailIsShorter(name: Pieces, post: bytes)
    ensures |post| < |StringText(name) + post|
  {
  }

  lemma {:induction false} EveryMemberValue(cf: Config, s: bytes, name: Pieces, colon: bytes, gap: bytes, s': bytes)
    returns (j: MembersJudged)
    requires ValidPieces(cf.validate, name) && AllBlank(colon) && AllBlank(gap) && NoBlank(s')
    requires s == StringText(name) + (colon + ([COLON] + (gap + s'))) && |s'| < |s|
    ensures JudgesMembers(cf, j, s)
    decreases |s'|, 3
  {
    hide AllBlank, SkipSpace, Spell, Valid, Ends, FaultText, ValidFault, NoBlank, StringText, ValidPieces;
    var k := EveryValue(cf, s');
    match k
    case Wrong(f) => j := WrongMembers(WrongValue(name, colon, gap, f));
    case Right(t, post) =>
      ShorterBehind(cf, t, post);
      var after := Blanks(post);
      var tail := SkipSpace(post);
      NoMoreBlanks(post);
      if Peek(tail) == COMMA {
        var next := Blanks(tail[1..]);
        var rest := SkipSpace(tail[1..]);
        NoMoreBlanks(tail[1..]);
        assert tail == [COMMA] + tail[1..];
        var more := EveryMembers(cf, rest);
        j := OneMoreMember(cf, s, name, colon, gap, t, after, next, more, rest);
      } else if Peek(tail) == RCURLY {
        assert tail == [RCURLY] + tail[1..];
        j := LastMember(cf, s, name, colon, gap, t, after, tail[1..]);
      } else {
        j := WrongMembers(NoCommaBehind(name, colon, gap, t, after, tail));
      }
  }

  lemma LastMember(cf: Config, s: bytes, name: Pieces, colon: bytes, gap: bytes, t: Json, after: bytes, post: bytes)
    returns (j: MembersJudged)
    requires ValidPieces(cf.validate, name) && AllBlank(colon) && AllBlank(gap) && Valid(cf, t) && AllBlank(after)
    requires s == StringText(name) + (colon + ([COLON] + (gap + (Spell(t) + (after + ([RCURLY] + post))))))
    ensures JudgesMembers(cf, j, s)
  {
    hide AllBlank, Spell, Valid, StringText, ValidPieces;
    NothingIsBlank();
    j := RightMembers(Member(name, colon, gap, t, after, [], NoMember), post);
    ReadsJson.MemberThen(j.ms, post);
    NothingIsValid(cf);
  }

  lemma OneMoreMember(cf: Config, s: bytes, name: Pieces, colon: bytes, gap: bytes, t: Json, after: bytes, next: bytes,
      more: MembersJudged, rest: bytes)
    returns (j: MembersJudged)
    requires ValidPieces(cf.validate, name) && AllBlank(colon) && AllBlank(gap)
    requires Valid(cf, t) && AllBlank(after) && AllBlank(next) && JudgesMembers(cf, more, rest)
    requires s == StringText(name) + (colon + ([COLON] + (gap + (Spell(t) + (after + ([COMMA] + (next + rest)))))))
    ensures JudgesMembers(cf, j, s)
  {
    hide AllBlank, Spell, Valid, Ends, StringText, ValidPieces;
    match more
    case RightMembers(ms, post) =>
      j := RightMembers(Member(name, colon, gap, t, after, next, ms), post);
      ReadsJson.MemberThen(j.ms, post);
    case WrongMembers(f) => j := WrongMembers(Faults.MemberThen(name, colon, gap, t, after, next, f));
  }

  // ---------------------------------------------------------------- whole texts

  /** What can be said of a text: there is nothing in it; its value goes wrong; there is something behind its value; or it
      is a JSON text. */
  datatype Verdict =
    | Empty
    | Faulty(before: bytes, f: Fault)
    | Trailing(before: bytes, t: Json, post: bytes)
    | Good(before: bytes, t: Json, post: bytes)

  ghost predicate Describes(cf: Config, v: Verdict, text: bytes) {
    match v
    case Empty => BlankToEnd(text)
    case Faulty(before, f) =>
      !BlankToEnd(text) && AllBlank(before) && ValidFault(cf, f) && text == before + FaultText(f)
    case Trailing(before, t, post) => Begins(cf, text, before, t, post) && !cf.stopWhenDone && !BlankToEnd(post)
    case Good(before, t, post) => Begins(cf, text, before, t, post) && (cf.stopWhenDone || BlankToEnd(post))
  }

  ghost function VerdictCode(cf: Config, v: Verdict, iterative: bool): ErrorCode
    requires v.Faulty? ==> ValidFault(cf, v.f)
  {
    match v
    case Empty => DocumentEmpty
    case Faulty(_, f) => FaultCode(cf, f, iterative, false)
    case Trailing(_, _, _) => DocumentRootNotSingular
    case Good(_, _, _) => NoError
  }

  ghost function VerdictMeans(cf: Config, v: Verdict): seq<Event>
    requires (v.Faulty? ==> ValidFault(cf, v.f)) && (v.Trailing? || v.Good? ==> Valid(cf, v.t))
  {
    match v
    case Empty => []
    case Faulty(_, f) => FaultMeans(cf, f)
    case Trailing(_, t, _) => Means(cf, t)
    case Good(_, t, _) => Means(cf, t)
  }

  /** One of them can be said of every text. */
  lemma EveryTextIsOne(cf: Config, text: bytes) returns (v: Verdict)
    ensures Describes(cf, v, text)
  {
    hide AllBlank, SkipSpace, Spell, Valid, Ends, FaultText, ValidFault, NoBlank, BlankToEnd;
    if BlankToEnd(text) {
      v := Empty;
    } else {
      var before := Blanks(text);
      NoMoreBlanks(text);
      var j := EveryValue(cf, SkipSpace(text));
      match j
      case Wrong(f) => v := Faulty(before, f);
      case Right(t, post) =>
        v := if cf.stopWhenDone || BlankToEnd(post) then Good(before, t, post) else Trailing(before, t, post);
    }
  }

  // ---------------------------------------------------------------- what the parsers make of them

  lemma SaysEmpty(cf: Config, text: bytes)
    requires BlankToEnd(text)
    ensures ParseRecursive(cf, text).error == DocumentEmpty && ParseRecursive(cf, text).events == []
    ensures Automaton.ParseIterative(cf, text).error == DocumentEmpty && Automaton.ParseIterative(cf, text).events == []
  {
    hide ParseValue, SkipSpace, BlankToEnd, Automaton.Transit;
    BlankIs(text);
  }

  lemma SaysFaulty(cf: Config, text: bytes, before: bytes, f: Fault)
    requires AcceptsAll(cf) && Describes(cf, Faulty(before, f), text)
    ensures ParseRecursive(cf, text).error == FaultCode(cf, f, false, false)
    ensures ParseRecursive(cf, text).events == FaultMeans(cf, f)
    ensures Automaton.ParseIterative(cf, text).error == FaultCode(cf, f, true, false)
    ensures Automaton.ParseIterative(cf, text).events == FaultMeans(cf, f)
  {
    hide ParseValue, Automaton.Run, FaultText, FaultMeans, FaultCode, ValidFault, SkipSpace, BlankToEnd, AllBlank;
    FaultStarts(cf, f);
    SkipsTo(before, FaultText(f));
    BlankIs(text);
    ReadsFault(cf, f, false, []);
    CodeIsError(cf, f, false, false);
    assert [] + FaultMeans(cf, f) == FaultMeans(cf, f);
    RunsFaults.RunFault(cf, Automaton.Start, [], f, []);
    Equivalence.ParsersAgree(cf, text);
  }

  lemma NothingAfterFinish(cf: Config, s: Progress)
    requires s.error == NoError && Peek(s.rest) != 0
    ensures Automaton.Run(cf, Automaton.Finish, [], s) == Fail(s, DocumentRootNotSingular)
  {
    hide Automaton.Open, Automaton.Close, ParseValue, ParseString;
  }

  lemma SaysTrailing(cf: Config, text: bytes, before: bytes, t: Json, post: bytes)
    requires AcceptsAll(cf) && Describes(cf, Trailing(before, t, post), text)
    ensures ParseRecursive(cf, text).error == DocumentRootNotSingular && ParseRecursive(cf, text).events == Means(cf, t)
    ensures Automaton.ParseIterative(cf, text).error == DocumentRootNotSingular
    ensures Automaton.ParseIterative(cf, text).events == Means(cf, t)
  {
    hide ParseValue, ParseRecursive, Automaton.Run, Spell, Valid, Ends, Means, SkipSpace, BlankToEnd, AllBlank;
    TellsWhatItSays(cf, text, before, t, post);
    ReadsRoot(cf, text, before, t, post);
    Starts(cf, t);
    TakeFront(Spell(t), post);
    SkipsBlank(before, Spell(t) + post);
    ReadsValue(cf, t, post, []);
    Equivalence.RunValue(cf, Automaton.Start, [], Progress(Spell(t) + post, [], NoError));
    BlankIs(post);
    NothingAfterFinish(cf, Progress(SkipSpace(post), [] + Means(cf, t), NoError));
  }

  /** Whatever can be said of a text, both parsers say so: they tell the handler what is sound, and report what is wrong. */
  lemma ParsersSay(cf: Config, v: Verdict, text: bytes)
    requires AcceptsAll(cf) && Describes(cf, v, text)
    ensures ParseRecursive(cf, text).error == VerdictCode(cf, v, false)
    ensures ParseRecursive(cf, text).events == VerdictMeans(cf, v)
    ensures Automaton.ParseIterative(cf, text).error == VerdictCode(cf, v, true)
    ensures Automaton.ParseIterative(cf, text).events == VerdictMeans(cf, v)
  {
    hide ParseRecursive, Automaton.ParseIterative, FaultText, FaultMeans, FaultCode, ValidFault, BlankToEnd, AllBlank, Means,
      Begins;
    match v
    case Empty => SaysEmpty(cf, text);
    case Faulty(before, f) => SaysFaulty(cf, text, before, f);
    case Trailing(before, t, post) => SaysTrailing(cf, text, before, t, post);
    case Good(before, t, post) => TellsWhatItSays(cf, text, before, t, post);
  }

  /** So an error is reported exactly if it is the one for something that can be said of the text. */
  lemma ErrorsAreExact(cf: Config, text: bytes, iterative: bool, error: ErrorCode)
    requires AcceptsAll(cf)
    ensures (if iterative then Automaton.ParseIterative(cf, text) else ParseRecursive(cf, text)).error == error
            <==> exists v :: Describes(cf, v, text) && VerdictCode(cf, v, iterative) == error
  {
    hide ParseRecursive, Automaton.ParseIterative, VerdictMeans;
    var v0 := EveryTextIsOne(cf, text);
    ParsersSay(cf, v0, text);
    forall v | Describes(cf, v, text)
      ensures (if iterative then Automaton.ParseIterative(cf, text) else ParseRecursive(cf, text)).error
              == VerdictCode(cf, v, iterative)
    {
      ParsersSay(cf, v, text);
    }
  }
}
