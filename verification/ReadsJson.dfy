/** Both parsers accept exactly the JSON texts, and tell their handler what these say (reader.h, section 2 of RFC 4627). */
module ReadsJson {
  import opened Streams
  import opened Events
  import opened ReaderSpec
  import opened Json
  import opened ReadsStrings
  import opened ReadsNumerals
  import Automaton
  import Equivalence

  // ---------------------------------------------------------------- whitespace

  lemma BlankIsSpace(s: bytes)
    ensures AllBlank(s) <==> AllSpace(s)
  {
    assert forall i | 0 <= i < |s| :: IsBlank(s[i]) <==> IsSpace(s[i]);
  }

  lemma SkipsBlank(gap: bytes, tail: bytes)
    requires AllBlank(gap) && tail != [] && !IsBlank(tail[0])
    ensures SkipSpace(gap + tail) == tail
  {
    BlankIsSpace(gap);
    SkipSpaceOver(gap, tail);
  }

  /** The whitespace a text begins with. */
  lemma {:induction false} Blanks(text: bytes) returns (gap: bytes)
    ensures AllBlank(gap) && text == gap + SkipSpace(text)
    decreases |text|
  {
    if IsSpace(Peek(text)) {
      var gap' := Blanks(text[1..]);
      gap := [text[0]] + gap';
      assert text == [text[0]] + text[1..];
    } else {
      gap := [];
      assert text == [] + text;
    }
  }

  // ---------------------------------------------------------------- how texts begin

  predicate StartsValue(c: byte) {
    c in {0x6E, 0x74, 0x66, QUOTE, LBRACKET, LCURLY, MINUS} || IsDigit(c)
  }

  lemma Starts(cf: Config, t: Json)
    requires Valid(cf, t)
    ensures Spell(t) != [] && StartsValue(Spell(t)[0]) && !IsBlank(Spell(t)[0]) && Spell(t)[0] != RBRACKET
  {
    hide SpellElements, SpellMembers, PiecesText;
    if t.NumberText? {
      NumeralStarts(t.n);
    }
  }

  lemma NumeralStarts(n: Numeral)
    requires ValidNumeral(n)
    ensures NumeralText(n) != [] && (IsDigit(NumeralText(n)[0]) || NumeralText(n)[0] == MINUS)
  {
    hide FractionText, PowerText;
  }

  lemma ElementsStart(cf: Config, es: Elements, post: bytes)
    requires ValidElements(cf, es)
    ensures var text := SpellElements(es) + post;
            text != [] && !IsBlank(text[0]) && (text[0] == RBRACKET <==> es.NoElement?)
  {
    hide Spell;
    if es.Element? {
      Starts(cf, es.value);
    }
  }

  lemma MembersStart(ms: Members, post: bytes)
    ensures var text := SpellMembers(ms) + post;
            text != [] && !IsBlank(text[0]) && (text[0] == RCURLY <==> ms.NoMember?) && (text[0] == QUOTE <==> ms.Member?)
  {
    hide Spell, PiecesText;
  }

  /** What follows a value that is not the whole text: it ends any value. */
  lemma CommaEnds(after: bytes, c: byte, post: bytes, t: Json)
    requires AllBlank(after) && c in {COMMA, RBRACKET, RCURLY}
    ensures Ends(t, after + ([c] + post)) && SkipSpace(after + ([c] + post)) == [c] + post
    ensures Peek([c] + post) == c && Next([c] + post) == post
  {
    SkipsBlank(after, [c] + post);
    TakeFront([c], post);
    assert [c][1..] + post == post;
    assert after == [] ==> after + ([c] + post) == [c] + post;
  }

  // ---------------------------------------------------------------- values are read as what they say

  lemma {:induction false} TakesAll(lit: bytes, post: bytes)
    ensures TakeAll(lit + post, lit) == Matched(true, post)
    decreases |lit|
  {
    if lit == [] {
      assert lit + post == post;
    } else {
      TakeFront(lit, post);
      TakesAll(lit[1..], post);
    }
  }

  lemma ReadsLiteral(cf: Config, t: Json, post: bytes, events: seq<Event>)
    requires AcceptsAll(cf) && (t.NullText? || t.BoolText?)
    ensures ParseValue(cf, Progress(Spell(t) + post, events, NoError)) == Progress(post, events + Means(cf, t), NoError)
  {
    hide Emit;
    var text := Spell(t);
    TakeFront(text, post);
    EmitAll(cf, Progress(post, events, NoError), Means(cf, t)[0]);
    TakesAll(text[1..], post);
    LiteralTails();
  }

  lemma LiteralTails()
    ensures Spell(NullText)[1..] == ULL && Spell(BoolText(true))[1..] == RUE && Spell(BoolText(false))[1..] == ALSE
  {
  }

  lemma ReadsNumber(cf: Config, n: Numeral, post: bytes, events: seq<Event>)
    requires AcceptsAll(cf) && ValidNumeral(n) && Accepted(cf.float, n) && Stops(n, post)
    ensures ParseValue(cf, Progress(NumeralText(n) + post, events, NoError))
            == Progress(post, events + [NumeralEvent(cf.float, n)], NoError)
  {
    hide ParseNumber, ParseLiteral, ParseString, ParseObject, ParseArray, Emit, NumeralText, NumeralEvent, Accepted, Stops,
      ValidNumeral;
    ReadsNumeral(cf, n, post, events);
    NumeralStarts(n);
    TakeFront(NumeralText(n), post);
    EmitAll(cf, Progress(post, events, NoError), NumeralEvent(cf.float, n));
  }

  lemma ReadsText(cf: Config, ps: Pieces, post: bytes, events: seq<Event>, isKey: bool)
    requires AcceptsAll(cf) && ValidPieces(cf.validate, ps)
    ensures Peek(StringText(ps) + post) == QUOTE
    ensures var text := PiecesMean(cf.validate, ps);
            ParseString(cf, Progress(StringText(ps) + post, events, NoError), isKey)
            == Progress(post, events + [if isKey then Key(text) else String(text)], NoError)
  {
    hide ScanString, Emit, PiecesText, PiecesMean, ValidPieces;
    var text := PiecesMean(cf.validate, ps);
    var tail := PiecesText(ps) + ([QUOTE] + post);
    assert StringText(ps) + post == [QUOTE] + tail;
    TakeFront([QUOTE], tail);
    assert [QUOTE][1..] + tail == tail;
    ReadsPieces(cf.validate, ps, [], post);
    assert [] + text == text;
    EmitAll(cf, Progress(post, events, NoError), if isKey then Key(text) else String(text));
  }

  lemma ReadsTextValue(cf: Config, ps: Pieces, post: bytes, events: seq<Event>)
    requires AcceptsAll(cf) && ValidPieces(cf.validate, ps)
    ensures ParseValue(cf, Progress(StringText(ps) + post, events, NoError))
            == Progress(post, events + [String(PiecesMean(cf.validate, ps))], NoError)
  {
    hide ParseNumber, ParseLiteral, ParseString, ParseObject, ParseArray, PiecesMean, ValidPieces;
    ReadsText(cf, ps, post, events, false);
  }

  /** Every value is read as what it says, up to where it ends. */
  lemma {:induction false} ReadsValue(cf: Config, t: Json, post: bytes, events: seq<Event>)
    requires AcceptsAll(cf) && Valid(cf, t) && Ends(t, post)
    ensures ParseValue(cf, Progress(Spell(t) + post, events, NoError)) == Progress(post, events + Means(cf, t), NoError)
    decreases t, 1
  {
    hide ParseValue, SpellElements, SpellMembers, NumeralText, StringText, NumeralEvent, PiecesMean, Stops;
    match t
    case NumberText(n) => ReadsNumber(cf, n, post, events);
    case TextText(pieces) => ReadsTextValue(cf, pieces, post, events);
    case ArrayText(gap, elements) => ReadsArray(cf, gap, elements, post, events);
    case ObjectText(gap, members) => ReadsObject(cf, gap, members, post, events);
    case NullText => ReadsLiteral(cf, t, post, events);
    case BoolText(_) => ReadsLiteral(cf, t, post, events);
  }

  lemma OpensArray(cf: Config, tail: bytes, events: seq<Event>)
    requires AcceptsAll(cf)
    ensures ParseValue(cf, Progress([LBRACKET] + tail, events, NoError)) ==
              var s := Progress(SkipSpace(tail), events + [StartArray], NoError);
              if Peek(s.rest) == RBRACKET then Progress(Next(s.rest), s.events + [EndArray(0)], NoError)
              else ParseElements(cf, s, 0)
  {
    hide ParseElements, ParseNumber, ParseString, ParseLiteral, ParseObject, Emit, SkipSpace;
    TakeFront([LBRACKET], tail);
    assert [LBRACKET][1..] + tail == tail;
    EmitAll(cf, Progress(tail, events, NoError), StartArray);
    var rest := SkipSpace(tail);
    EmitAll(cf, Progress(Next(rest), events + [StartArray], NoError), EndArray(0));
  }

  lemma {:induction false} ReadsArray(cf: Config, gap: bytes, es: Elements, post: bytes, events: seq<Event>)
    requires AcceptsAll(cf) && AllBlank(gap) && ValidElements(cf, es)
    ensures ParseValue(cf, Progress([LBRACKET] + (gap + SpellElements(es)) + post, events, NoError))
            == Progress(post, events + ([StartArray] + (ElementsMean(cf, es) + [EndArray(Word32(CountElements(es)))])), NoError)
    decreases es, 1
  {
    hide ParseValue, ParseElements, SpellElements, ElementsMean, CountElements, SkipSpace, AllBlank;
    var text := SpellElements(es) + post;
    Associate([LBRACKET], gap + SpellElements(es), post);
    Associate(gap, SpellElements(es), post);
    OpensArray(cf, gap + text, events);
    ElementsStart(cf, es, post);
    SkipsBlank(gap, text);
    Together(events, StartArray, ElementsMean(cf, es), EndArray(Word32(CountElements(es))));
    if es.NoElement? {
      NoElements(cf, es, post);
    } else {
      ReadsElements(cf, es, 0, post, events + [StartArray]);
    }
  }

  lemma NoElements(cf: Config, es: Elements, post: bytes)
    requires es.NoElement?
    ensures SpellElements(es) + post == [RBRACKET] + post && Next([RBRACKET] + post) == post
    ensures ElementsMean(cf, es) == [] && CountElements(es) == 0
  {
    assert [RBRACKET][1..] + post == post;
  }

  lemma Together(events: seq<Event>, first: Event, middle: seq<Event>, last: Event)
    ensures events + ([first] + (middle + [last])) == events + [first] + middle + [last]
    ensures middle == [] ==> events + ([first] + (middle + [last])) == events + [first] + [last]
  {
  }

  /** One turn of the loop: a comma goes on, the bracket ends it. */
  lemma ElementsTurn(cf: Config, s: Progress, count: uint32)
    requires AcceptsAll(cf) && s.error == NoError && ParseValue(cf, s).error == NoError
    ensures var s1 := ParseValue(cf, s); var rest := SkipSpace(s1.rest);
            ParseElements(cf, s, count) ==
              if Peek(rest) == COMMA then
                ParseElements(cf, Progress(SkipSpace(Next(rest)), s1.events, NoError), IncSize(count))
              else if Peek(rest) == RBRACKET then
                Progress(Next(rest), s1.events + [EndArray(IncSize(count))], NoError)
              else Progress(Next(rest), s1.events, ArrayMissCommaOrSquareBracket)
  {
    hide ParseValue, SkipSpace, Emit;
    var s1 := ParseValue(cf, s);
    EmitAll(cf, Progress(Next(SkipSpace(s1.rest)), s1.events, NoError), EndArray(IncSize(count)));
  }

  lemma {:induction false} ReadsElements(cf: Config, es: Elements, count: uint32, post: bytes, events: seq<Event>)
    requires AcceptsAll(cf) && ValidElements(cf, es) && es.Element?
    ensures ParseElements(cf, Progress(SpellElements(es) + post, events, NoError), count)
            == Progress(post, events + ElementsMean(cf, es) + [EndArray(Word32(count + CountElements(es)))], NoError)
    decreases es, 0
  {
    hide ParseElements, ParseValue, Spell, Means, SkipSpace, AllBlank, Ends;
    var s := Progress(SpellElements(es) + post, events, NoError);
    var events1 := events + Means(cf, es.value);
    var c := if es.more.NoElement? then RBRACKET else COMMA;
    var behind := if es.more.NoElement? then post else es.next + (SpellElements(es.more) + post);
    ElementThen(es, post);
    CommaEnds(es.after, c, behind, es.value);
    ReadsValue(cf, es.value, es.after + ([c] + behind), events);
    ElementsTurn(cf, s, count);
    CountsOn(count, CountElements(es.more));
    if es.more.Element? {
      ElementsStart(cf, es.more, post);
      SkipsBlank(es.next, SpellElements(es.more) + post);
      ReadsElements(cf, es.more, IncSize(count), post, events1);
      assert events + (Means(cf, es.value) + ElementsMean(cf, es.more)) == events1 + ElementsMean(cf, es.more);
    } else {
      assert events + (Means(cf, es.value) + []) == events1;
    }
  }

  lemma ElementThen(es: Elements, post: bytes)
    requires es.Element?
    ensures var c := if es.more.NoElement? then RBRACKET else COMMA;
            var behind := if es.more.NoElement? then post else es.next + (SpellElements(es.more) + post);
            SpellElements(es) + post == Spell(es.value) + (es.after + ([c] + behind))
  {
    hide Spell;
    if es.more.NoElement? {
      Associate(es.after, [RBRACKET], post);
      Associate(Spell(es.value), es.after + [RBRACKET], post);
    } else {
      var more := SpellElements(es.more);
      Associate(es.next, more, post);
      Associate([COMMA], es.next + more, post);
      Associate(es.after, [COMMA] + (es.next + more), post);
      Associate(Spell(es.value), es.after + ([COMMA] + (es.next + more)), post);
    }
  }

  lemma CountsOn(count: uint32, k: nat)
    ensures Word32(IncSize(count) + k) == Word32(count + (1 + k)) && IncSize(count) == Word32(count + 1)
  {
  }

  lemma OpensObject(cf: Config, tail: bytes, events: seq<Event>)
    requires AcceptsAll(cf)
    ensures ParseValue(cf, Progress([LCURLY] + tail, events, NoError)) ==
              var s := Progress(SkipSpace(tail), events + [StartObject], NoError);
              if Peek(s.rest) == RCURLY then Progress(Next(s.rest), s.events + [EndObject(0)], NoError)
              else ParseMembers(cf, s, 0)
  {
    hide ParseMembers, ParseNumber, ParseString, ParseLiteral, ParseArray, Emit, SkipSpace;
    TakeFront([LCURLY], tail);
    assert [LCURLY][1..] + tail == tail;
    EmitAll(cf, Progress(tail, events, NoError), StartObject);
    var rest := SkipSpace(tail);
    EmitAll(cf, Progress(Next(rest), events + [StartObject], NoError), EndObject(0));
  }

  lemma {:induction false} ReadsObject(cf: Config, gap: bytes, ms: Members, post: bytes, events: seq<Event>)
    requires AcceptsAll(cf) && AllBlank(gap) && ValidMembers(cf, ms)
    ensures ParseValue(cf, Progress([LCURLY] + (gap + SpellMembers(ms)) + post, events, NoError))
            == Progress(post, events + ([StartObject] + (MembersMean(cf, ms) + [EndObject(Word32(CountMembers(ms)))])), NoError)
    decreases ms, 1
  {
    hide ParseValue, ParseMembers, SpellMembers, MembersMean, CountMembers, SkipSpace, AllBlank;
    var text := SpellMembers(ms) + post;
    Associate([LCURLY], gap + SpellMembers(ms), post);
    Associate(gap, SpellMembers(ms), post);
    OpensObject(cf, gap + text, events);
    MembersStart(ms, post);
    SkipsBlank(gap, text);
    Together(events, StartObject, MembersMean(cf, ms), EndObject(Word32(CountMembers(ms))));
    if ms.NoMember? {
      NoMembers(cf, ms, post);
    } else {
      ReadsMembers(cf, ms, 0, post, events + [StartObject]);
    }
  }

  lemma NoMembers(cf: Config, ms: Members, post: bytes)
    requires ms.NoMember?
    ensures SpellMembers(ms) + post == [RCURLY] + post && Next([RCURLY] + post) == post
    ensures MembersMean(cf, ms) == [] && CountMembers(ms) == 0
  {
    assert [RCURLY][1..] + post == post;
  }

  /** Where the parse stands behind the colon of a member. */
  function BehindColon(cf: Config, s: Progress): (r: Progress)
    requires s.error == NoError && s.rest != [] && ParseString(cf, s, true).error == NoError
    ensures r.error == NoError && |r.rest| < |s.rest|
  {
    var s1 := ParseString(cf, s, true);
    Progress(SkipSpace(Next(SkipSpace(s1.rest))), s1.events, NoError)
  }

  lemma MembersTurn(cf: Config, s: Progress, count: uint32)
    requires AcceptsAll(cf) && s.error == NoError && Peek(s.rest) == QUOTE && ParseString(cf, s, true).error == NoError
    requires Peek(SkipSpace(ParseString(cf, s, true).rest)) == COLON && ParseValue(cf, BehindColon(cf, s)).error == NoError
    ensures var s1 := ParseValue(cf, BehindColon(cf, s)); var rest := SkipSpace(s1.rest);
            ParseMembers(cf, s, count) ==
              if Peek(rest) == COMMA then
                ParseMembers(cf, Progress(SkipSpace(Next(rest)), s1.events, NoError), IncSize(count))
              else if Peek(rest) == RCURLY then
                Progress(Next(rest), s1.events + [EndObject(IncSize(count))], NoError)
              else Progress(Next(rest), s1.events, ObjectMissCommaOrCurlyBracket)
  {
    hide ParseValue, ParseString, SkipSpace, Emit;
    var s1 := ParseValue(cf, BehindColon(cf, s));
    EmitAll(cf, Progress(Next(SkipSpace(s1.rest)), s1.events, NoError), EndObject(IncSize(count)));
  }

  lemma {:induction false} ReadsMembers(cf: Config, ms: Members, count: uint32, post: bytes, events: seq<Event>)
    requires AcceptsAll(cf) && ValidMembers(cf, ms) && ms.Member?
    ensures ParseMembers(cf, Progress(SpellMembers(ms) + post, events, NoError), count)
            == Progress(post, events + MembersMean(cf, ms) + [EndObject(Word32(count + CountMembers(ms)))], NoError)
    decreases ms, 0
  {
    hide ParseMembers, ParseValue, ParseString, Spell, Means, SkipSpace, AllBlank, Ends, StringText, PiecesMean, ValidPieces,
      SpellMembers, MembersMean, CountMembers, Valid, Word32, IncSize;
    var s := Progress(SpellMembers(ms) + post, events, NoError);
    var key := Key(PiecesMean(cf.validate, ms.name));
    var events1 := events + [key] + Means(cf, ms.value);
    MembersSay(cf, ms, events);
    var c := if ms.more.NoMember? then RCURLY else COMMA;
    var behind := if ms.more.NoMember? then post else ms.next + (SpellMembers(ms.more) + post);
    MemberThen(ms, post);
    NameIsRead(cf, ms, c, behind, events);
    CommaEnds(ms.after, c, behind, ms.value);
    ReadsValue(cf, ms.value, ms.after + ([c] + behind), events + [key]);
    MembersTurn(cf, s, count);
    CountsOn(count, CountMembers(ms.more));
    if ms.more.Member? {
      MembersStart(ms.more, post);
      SkipsBlank(ms.next, SpellMembers(ms.more) + post);
      ReadsMembers(cf, ms.more, IncSize(count), post, events1);
    }
  }

  lemma MembersSay(cf: Config, ms: Members, events: seq<Event>)
    requires ValidMembers(cf, ms) && ms.Member?
    ensures events + MembersMean(cf, ms)
            == events + [Key(PiecesMean(cf.validate, ms.name))] + Means(cf, ms.value) + MembersMean(cf, ms.more)
    ensures ms.more.NoMember? ==> MembersMean(cf, ms.more) == [] && CountMembers(ms.more) == 0
    ensures CountMembers(ms) == 1 + CountMembers(ms.more)
  {
    hide Means, PiecesMean, Valid, ValidPieces, AllBlank;
  }

  lemma MemberThen(ms: Members, post: bytes)
    requires ms.Member?
    ensures var c := if ms.more.NoMember? then RCURLY else COMMA;
            var behind := if ms.more.NoMember? then post else ms.next + (SpellMembers(ms.more) + post);
            SpellMembers(ms) + post ==
              StringText(ms.name) + (ms.colon + ([COLON] + (ms.gap + (Spell(ms.value) + (ms.after + ([c] + behind))))))
  {
    hide Spell, StringText;
    var tail := if ms.more.NoMember? then [RCURLY] else [COMMA] + (ms.next + SpellMembers(ms.more));
    if ms.more.Member? {
      Associate(ms.next, SpellMembers(ms.more), post);
      Associate([COMMA], ms.next + SpellMembers(ms.more), post);
    }
    Associate(ms.after, tail, post);
    Associate(Spell(ms.value), ms.after + tail, post);
    Associate(ms.gap, Spell(ms.value) + (ms.after + tail), post);
    Associate([COLON], ms.gap + (Spell(ms.value) + (ms.after + tail)), post);
    Associate(ms.colon, [COLON] + (ms.gap + (Spell(ms.value) + (ms.after + tail))), post);
    Associate(StringText(ms.name), ms.colon + ([COLON] + (ms.gap + (Spell(ms.value) + (ms.after + tail)))), post);
  }

  lemma NameIsRead(cf: Config, ms: Members, c: byte, behind: bytes, events: seq<Event>)
    requires AcceptsAll(cf) && ms.Member? && ValidPieces(cf.validate, ms.name) && AllBlank(ms.colon) && AllBlank(ms.gap)
    requires Valid(cf, ms.value)
    ensures var value := Spell(ms.value) + (ms.after + ([c] + behind));
            var s := Progress(StringText(ms.name) + (ms.colon + ([COLON] + (ms.gap + value))), events, NoError);
            && Peek(s.rest) == QUOTE && ParseString(cf, s, true).error == NoError
            && Peek(SkipSpace(ParseString(cf, s, true).rest)) == COLON
            && BehindColon(cf, s) == Progress(value, events + [Key(PiecesMean(cf.validate, ms.name))], NoError)
  {
    hide ParseString, Spell, SkipSpace, AllBlank, StringText, PiecesMean, ValidPieces;
    var value := Spell(ms.value) + (ms.after + ([c] + behind));
    var tail := ms.gap + value;
    ReadsText(cf, ms.name, ms.colon + ([COLON] + tail), events, true);
    SkipsBlank(ms.colon, [COLON] + tail);
    TakeFront([COLON], tail);
    assert [COLON][1..] + tail == tail;
    Starts(cf, ms.value);
    TakeFront(Spell(ms.value), ms.after + ([c] + behind));
    SkipsBlank(ms.gap, value);
  }

  // ---------------------------------------------------------------- what was read without an error

  lemma TellsLiteral(cf: Config, s: Progress, lit: bytes, e: Event)
    requires s.rest != [] && s.error == NoError && ParseLiteral(cf, s, lit, e).error == NoError
    requires forall i | 0 <= i < |lit| :: lit[i] != 0
    ensures s.rest == [s.rest[0]] + (lit + ParseLiteral(cf, s, lit, e).rest)
  {
    TellsAll(Next(s.rest), lit);
    assert s.rest == [s.rest[0]] + s.rest[1..];
  }

  lemma {:induction false} TellsAll(rest: bytes, lit: bytes)
    requires TakeAll(rest, lit).ok && forall i | 0 <= i < |lit| :: lit[i] != 0
    ensures rest == lit + TakeAll(rest, lit).rest
    decreases |lit|
  {
    if lit != [] {
      TellsAll(Next(rest), lit[1..]);
      assert rest == [lit[0]] + rest[1..];
      assert lit == [lit[0]] + lit[1..];
    }
  }

  lemma TellsText(cf: Config, s: Progress, isKey: bool) returns (ps: Pieces)
    requires AcceptsAll(cf) && s.error == NoError && Peek(s.rest) == QUOTE && ParseString(cf, s, isKey).error == NoError
    ensures ValidPieces(cf.validate, ps) && s.rest == StringText(ps) + ParseString(cf, s, isKey).rest
  {
    hide ScanString, PiecesText, ValidPieces, Emit;
    var rest := s.rest[1..];
    TextScans(cf, s, isKey);
    ps := TellsPieces(cf.validate, [], rest);
    var post := ParseString(cf, s, isKey).rest;
    assert s.rest == [QUOTE] + rest;
    assert [QUOTE] + (PiecesText(ps) + ([QUOTE] + post)) == [QUOTE] + (PiecesText(ps) + [QUOTE]) + post;
  }

  lemma TextScans(cf: Config, s: Progress, isKey: bool)
    requires s.error == NoError && Peek(s.rest) == QUOTE && ParseString(cf, s, isKey).error == NoError
    ensures var r := ScanString(cf.validate, Scanned([], s.rest[1..], NoError));
            r.error == NoError && r.rest == ParseString(cf, s, isKey).rest
  {
    hide ScanString;
  }

  /** Whatever is read as a value without an error is a value, and ends there. */
  lemma {:induction false} TellsValue(cf: Config, s: Progress) returns (t: Json)
    requires AcceptsAll(cf) && s.error == NoError && ParseValue(cf, s).error == NoError
    ensures Valid(cf, t) && Ends(t, ParseValue(cf, s).rest) && s.rest == Spell(t) + ParseValue(cf, s).rest
    decreases |s.rest|, 1
  {
    var c := Peek(s.rest);
    hide ParseNumber, ParseLiteral, ParseString, ParseObject, ParseArray, NumeralText, StringText, NumeralEvent, Stops, Accepted,
      SpellElements, SpellMembers, Emit;
    if c == 0x6E {
      TellsLiteral(cf, s, ULL, Null);
      t := NullText;
      assert [0x6E] + ULL == Spell(t);
      Associate([0x6E], ULL, ParseValue(cf, s).rest);
    } else if c == 0x74 {
      TellsLiteral(cf, s, RUE, Bool(true));
      t := BoolText(true);
      assert [0x74] + RUE == Spell(t);
      Associate([0x74], RUE, ParseValue(cf, s).rest);
    } else if c == 0x66 {
      TellsLiteral(cf, s, ALSE, Bool(false));
      t := BoolText(false);
      assert [0x66] + ALSE == Spell(t);
      Associate([0x66], ALSE, ParseValue(cf, s).rest);
    } else if c == QUOTE {
      var ps := TellsText(cf, s, false);
      t := TextText(ps);
    } else if c == LCURLY {
      t := TellsObject(cf, s);
    } else if c == LBRACKET {
      t := TellsArray(cf, s);
    } else {
      var n, post := TellsNumeral(cf, s);
      EmitAll(cf, s.(rest := post), NumeralEvent(cf.float, n));
      t := NumberText(n);
    }
  }

  lemma {:induction false} TellsArray(cf: Config, s: Progress) returns (t: Json)
    requires AcceptsAll(cf) && s.error == NoError && Peek(s.rest) == LBRACKET && ParseArray(cf, s).error == NoError
    ensures Valid(cf, t) && t.ArrayText? && s.rest == Spell(t) + ParseArray(cf, s).rest
    decreases |s.rest|, 0
  {
    hide ParseElements, SpellElements, SkipSpace, Emit, AllBlank, ValidElements;
    var tail, post := s.rest[1..], ParseArray(cf, s).rest;
    ArrayIs(cf, s);
    var gap := Blanks(tail);
    var inner := SkipSpace(tail);
    var es := NoElement;
    if Peek(inner) == RBRACKET {
      NoElements(cf, es, Next(inner));
      assert inner == [RBRACKET] + Next(inner);
      assert ValidElements(cf, es) by { NothingIsValid(cf); }
    } else {
      es := TellsElements(cf, Progress(inner, s.events + [StartArray], NoError), 0);
    }
    t := ArrayText(gap, es);
    Bracketed(s.rest, LBRACKET, gap, SpellElements(es), post);
  }

  lemma NothingIsValid(cf: Config)
    ensures ValidElements(cf, NoElement) && ValidMembers(cf, NoMember)
  {
  }

  lemma Bracketed(text: bytes, c: byte, gap: bytes, inner: bytes, post: bytes)
    requires text != [] && text[0] == c && text[1..] == gap + (inner + post)
    ensures text == [c] + (gap + inner) + post
  {
    Associate(gap, inner, post);
    Associate([c], gap + inner, post);
    assert text == [c] + text[1..];
  }

  lemma ArrayIs(cf: Config, s: Progress)
    requires AcceptsAll(cf) && s.error == NoError && s.rest != []
    ensures var s1 := Progress(SkipSpace(s.rest[1..]), s.events + [StartArray], NoError);
            ParseArray(cf, s) ==
              if Peek(s1.rest) == RBRACKET then Progress(Next(s1.rest), s1.events + [EndArray(0)], NoError)
              else ParseElements(cf, s1, 0)
  {
    hide ParseElements, SkipSpace, Emit;
    EmitAll(cf, Progress(s.rest[1..], s.events, NoError), StartArray);
    EmitAll(cf, Progress(Next(SkipSpace(s.rest[1..])), s.events + [StartArray], NoError), EndArray(0));
  }

  lemma ObjectIs(cf: Config, s: Progress)
    requires AcceptsAll(cf) && s.error == NoError && s.rest != []
    ensures var s1 := Progress(SkipSpace(s.rest[1..]), s.events + [StartObject], NoError);
            ParseObject(cf, s) ==
              if Peek(s1.rest) == RCURLY then Progress(Next(s1.rest), s1.events + [EndObject(0)], NoError)
              else ParseMembers(cf, s1, 0)
  {
    hide ParseMembers, SkipSpace, Emit;
    EmitAll(cf, Progress(s.rest[1..], s.events, NoError), StartObject);
    EmitAll(cf, Progress(Next(SkipSpace(s.rest[1..])), s.events + [StartObject], NoError), EndObject(0));
  }

  lemma {:induction false} TellsElements(cf: Config, s: Progress, count: uint32) returns (es: Elements)
    requires AcceptsAll(cf) && s.error == NoError && ParseElements(cf, s, count).error == NoError
    ensures es.Element? && ValidElements(cf, es) && s.rest == SpellElements(es) + ParseElements(cf, s, count).rest
    decreases |s.rest|, 2
  {
    hide ParseElements, ParseValue, Spell, SkipSpace, AllBlank, Valid, Ends, Emit;
    var post := ParseElements(cf, s, count).rest;
    ElementSucceeds(cf, s, count);
    var value := TellsValue(cf, s);
    var s1 := ParseValue(cf, s);
    ElementsTurn(cf, s, count);
    var after := Blanks(s1.rest);
    var rest := SkipSpace(s1.rest);
    if Peek(rest) == COMMA {
      var next := Blanks(Next(rest));
      var more := TellsElements(cf, Progress(SkipSpace(Next(rest)), s1.events, NoError), IncSize(count));
      es := Element(value, after, next, more);
      Associate(next, SpellElements(more), post);
      assert rest == [COMMA] + Next(rest);
    } else {
      assert AllBlank([]) by { NothingIsBlank(); }
      es := Element(value, after, [], NoElement);
      assert rest == [RBRACKET] + Next(rest);
    }
    ElementThen(es, post);
  }

  lemma NothingIsBlank()
    ensures AllBlank([])
  {
  }

  lemma ElementSucceeds(cf: Config, s: Progress, count: uint32)
    requires s.error == NoError && ParseElements(cf, s, count).error == NoError
    ensures ParseValue(cf, s).error == NoError
    ensures var rest := SkipSpace(ParseValue(cf, s).rest); Peek(rest) == COMMA || Peek(rest) == RBRACKET
  {
    hide ParseValue, SkipSpace;
  }

  lemma {:induction false} TellsObject(cf: Config, s: Progress) returns (t: Json)
    requires AcceptsAll(cf) && s.error == NoError && Peek(s.rest) == LCURLY && ParseObject(cf, s).error == NoError
    ensures Valid(cf, t) && t.ObjectText? && s.rest == Spell(t) + ParseObject(cf, s).rest
    decreases |s.rest|, 0
  {
    hide ParseMembers, SpellMembers, SkipSpace, Emit, AllBlank, ValidMembers;
    var tail, post := s.rest[1..], ParseObject(cf, s).rest;
    ObjectIs(cf, s);
    var gap := Blanks(tail);
    var inner := SkipSpace(tail);
    var ms := NoMember;
    if Peek(inner) == RCURLY {
      NoMembers(cf, ms, Next(inner));
      assert inner == [RCURLY] + Next(inner);
      assert ValidMembers(cf, ms) by { NothingIsValid(cf); }
    } else {
      ms := TellsMembers(cf, Progress(inner, s.events + [StartObject], NoError), 0);
    }
    t := ObjectText(gap, ms);
    Bracketed(s.rest, LCURLY, gap, SpellMembers(ms), post);
  }

  lemma MemberSucceeds(cf: Config, s: Progress, count: uint32)
    requires s.error == NoError && ParseMembers(cf, s, count).error == NoError
    ensures Peek(s.rest) == QUOTE && ParseString(cf, s, true).error == NoError
    ensures Peek(SkipSpace(ParseString(cf, s, true).rest)) == COLON && ParseValue(cf, BehindColon(cf, s)).error == NoError
    ensures var rest := SkipSpace(ParseValue(cf, BehindColon(cf, s)).rest); Peek(rest) == COMMA || Peek(rest) == RCURLY
  {
    hide ParseValue, ParseString, SkipSpace;
  }

  lemma {:induction false} TellsMembers(cf: Config, s: Progress, count: uint32) returns (ms: Members)
    requires AcceptsAll(cf) && s.error == NoError && ParseMembers(cf, s, count).error == NoError
    ensures ms.Member? && ValidMembers(cf, ms) && s.rest == SpellMembers(ms) + ParseMembers(cf, s, count).rest
    decreases |s.rest|, 2
  {
    hide ParseMembers, ParseValue, ParseString, Spell, SkipSpace, AllBlank, Valid, Ends, Emit, ValidPieces, StringText,
      SpellMembers;
    var post := ParseMembers(cf, s, count).rest;
    MemberSucceeds(cf, s, count);
    var name := TellsText(cf, s, true);
    var s1 := ParseString(cf, s, true);
    var colon := Blanks(s1.rest);
    var gap := Blanks(Next(SkipSpace(s1.rest)));
    var s2 := BehindColon(cf, s);
    var value := TellsValue(cf, s2);
    var s3 := ParseValue(cf, s2);
    MembersTurn(cf, s, count);
    var after := Blanks(s3.rest);
    var rest := SkipSpace(s3.rest);
    assert SkipSpace(s1.rest) == [COLON] + Next(SkipSpace(s1.rest));
    if Peek(rest) == COMMA {
      var next := Blanks(Next(rest));
      var more := TellsMembers(cf, Progress(SkipSpace(Next(rest)), s3.events, NoError), IncSize(count));
      ms := Member(name, colon, gap, value, after, next, more);
      Associate(next, SpellMembers(more), post);
      assert rest == [COMMA] + Next(rest);
    } else {
      assert AllBlank([]) by { NothingIsBlank(); }
      ms := Member(name, colon, gap, value, after, [], NoMember);
      assert rest == [RCURLY] + Next(rest);
    }
    MemberThen(ms, post);
    assert ValidMembers(cf, ms.more) by { NothingIsValid(cf); }
  }

  // ---------------------------------------------------------------- the theorems

  lemma {:induction false} BlankIs(post: bytes)
    ensures BlankToEnd(post) <==> Peek(SkipSpace(post)) == 0
    decreases |post|
  {
    if post != [] && IsBlank(post[0]) {
      BlankIs(post[1..]);
    }
  }

  /** With kParseStopWhenDone, or before it is asked what follows: the parser reads one value. */
  lemma ReadsRoot(cf: Config, text: bytes, before: bytes, t: Json, post: bytes)
    requires AcceptsAll(cf) && Begins(cf, text, before, t, post)
    ensures ParseRecursive(cf, text) ==
              if cf.stopWhenDone then Progress(post, Means(cf, t), NoError)
              else if BlankToEnd(post) then Progress(SkipSpace(post), Means(cf, t), NoError)
              else Progress(SkipSpace(post), Means(cf, t), DocumentRootNotSingular)
  {
    hide ParseValue, Spell, SkipSpace, Means, Valid, Ends, BlankToEnd, AllBlank;
    Starts(cf, t);
    TakeFront(Spell(t), post);
    SkipsBlank(before, Spell(t) + post);
    ReadsValue(cf, t, post, []);
    assert [] + Means(cf, t) == Means(cf, t);
    BlankIs(post);
  }

  lemma TellsRoot(cf: Config, text: bytes) returns (before: bytes, t: Json, post: bytes)
    requires AcceptsAll(cf) && ParseRecursive(cf, text).error == NoError
    ensures Begins(cf, text, before, t, post) && (cf.stopWhenDone || BlankToEnd(post))
  {
    hide ParseValue, Spell, SkipSpace, Means, Valid, Ends, BlankToEnd, AllBlank;
    before := Blanks(text);
    var s := Progress(SkipSpace(text), [], NoError);
    t := TellsValue(cf, s);
    post := ParseValue(cf, s).rest;
    BlankIs(post);
  }

  /** A parse succeeds exactly on a JSON text: whitespace, a value, and, unless it stops when it is done, nothing but
      whitespace up to the end or a NUL. */
  lemma ParsesExactlyJson(cf: Config, text: bytes)
    requires AcceptsAll(cf)
    ensures ParseRecursive(cf, text).error == NoError
            <==> exists before, t, post :: Begins(cf, text, before, t, post) && (cf.stopWhenDone || BlankToEnd(post))
    ensures Automaton.ParseIterative(cf, text).error == NoError <==> ParseRecursive(cf, text).error == NoError
  {
    hide ParseRecursive, Automaton.ParseIterative, Begins, BlankToEnd;
    if ParseRecursive(cf, text).error == NoError {
      var before, t, post := TellsRoot(cf, text);
    }
    forall before, t, post | Begins(cf, text, before, t, post) && (cf.stopWhenDone || BlankToEnd(post))
      ensures ParseRecursive(cf, text).error == NoError
    {
      ReadsRoot(cf, text, before, t, post);
    }
    Equivalence.ParsersAgree(cf, text);
  }

  /** It tells the handler what the value says; and a value with something else behind it is told and then refused. */
  lemma TellsWhatItSays(cf: Config, text: bytes, before: bytes, t: Json, post: bytes)
    requires AcceptsAll(cf) && Begins(cf, text, before, t, post)
    ensures ParseRecursive(cf, text).events == Means(cf, t) && Automaton.ParseIterative(cf, text).events == Means(cf, t)
    ensures ParseRecursive(cf, text).error == NoError <==> cf.stopWhenDone || BlankToEnd(post)
    ensures Automaton.ParseIterative(cf, text).error == NoError <==> cf.stopWhenDone || BlankToEnd(post)
  {
    hide ParseRecursive, Automaton.ParseIterative, Begins, BlankToEnd, Means, SkipSpace;
    ReadsRoot(cf, text, before, t, post);
    Equivalence.ParsersAgree(cf, text);
  }
}
