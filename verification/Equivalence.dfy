/** The table-driven parser and the recursive-descent parser are the same parser: on every text and for every
    handler they send the same events and give the same verdict (reader.h). */
module Equivalence {
  import opened Streams
  import opened Events
  import opened ReaderSpec
  import opened Automaton

  /** Same events and, after a success, the same text left; the same error, but where the first finds no move for a value
      that the second finds invalid. */
  predicate Agree(a: Progress, b: Progress) {
    && a.events == b.events
    && (a.error == b.error || (b.error.ValueInvalid? && (a.error.DocumentEmpty? || a.error.UnspecificSyntaxError?)))
    && (a.error == NoError ==> a.rest == b.rest)
  }

  /** How the automaton goes on from a value or bracket that ended in `s` and leads to state `q`. */
  function Continue(cf: Config, q: State, stack: seq<Frame>, s: Progress): Progress
    requires StackFits(q, stack) && !q.Error? && s.error == NoError
  {
    if cf.stopWhenDone && q.Finish? then s else Run(cf, q, stack, Skip(s))
  }

  function Leave(q: State): State {
    if q.Start? then Finish else q
  }

  /** The state in which the bracket below goes on once this one has closed. */
  function Back(q: State, stack: seq<Frame>): (r: State)
    requires StackFits(q, stack) && stack != []
    ensures StackFits(r, stack[..|stack| - 1]) && !r.Error?
  {
    Leave(stack[|stack| - 1].resume)
  }

  predicate ExpectsValue(q: State, c: byte) {
    q.Start? || q.KeyValueDelimiter? || q.ElementDelimiter? || (q.ArrayInitial? && c != RBRACKET)
  }

  lemma NoValueHere(cf: Config, s: Progress)
    requires s.error == NoError
    requires Peek(s.rest) in {0, RBRACKET, RCURLY, COMMA, COLON}
    ensures ParseNumber(cf, s) == Progress(s.rest, s.events, ValueInvalid)
  {
    hide ParseFraction, ParseExponent, NumberEvent;
  }

  /** The automaton's move for a value that is not an array or an object. */
  lemma RunScalar(cf: Config, q: State, stack: seq<Frame>, s: Progress)
    requires StackFits(q, stack) && s.error == NoError
    requires ExpectsValue(q, Peek(s.rest))
    requires Peek(s.rest) !in {LBRACKET, LCURLY, 0, RBRACKET, RCURLY, COMMA, COLON}
    ensures var r := ParseValue(cf, s);
            if r.error != NoError then Run(cf, q, stack, s) == r
            else Run(cf, q, stack, s) == Continue(cf, Leave(Resume(q)), stack, r)
  {
    hide ParseValue, ParseString, Emit, Close, Skip;
  }

  /** The automaton's move at an opening bracket. */
  lemma RunOpen(cf: Config, q: State, stack: seq<Frame>, s: Progress)
    requires StackFits(q, stack) && s.error == NoError
    requires ExpectsValue(q, Peek(s.rest)) && Peek(s.rest) in {LBRACKET, LCURLY}
    ensures var isArray := Peek(s.rest) == LBRACKET;
            var s1 := Emit(cf, Advance(s), if isArray then StartArray else StartObject);
            var stack' := stack + [Frame(Resume(q), 0)];
            if s1.error != NoError then Agree(Run(cf, q, stack, s), s1)
            else StackFits(if isArray then ArrayInitial else ObjectInitial, stack') &&
                 Run(cf, q, stack, s) == Run(cf, if isArray then ArrayInitial else ObjectInitial, stack', Skip(s1))
  {
    hide ParseValue, ParseString;
  }

  /** The automaton's move at a bracket that closes at once. */
  lemma RunEmpty(cf: Config, q: State, stack: seq<Frame>, s: Progress)
    requires StackFits(q, stack) && s.error == NoError
    requires (q.ArrayInitial? && Peek(s.rest) == RBRACKET) || (q.ObjectInitial? && Peek(s.rest) == RCURLY)
    requires stack[|stack| - 1].commas == 0
    ensures var r := Emit(cf, Advance(s), if q.ArrayInitial? then EndArray(0) else EndObject(0));
            if r.error != NoError then Agree(Run(cf, q, stack, s), r)
            else Run(cf, q, stack, s) == Continue(cf, Leave(stack[|stack| - 1].resume), stack[..|stack| - 1], r)
  {
    hide ParseValue, ParseString, Skip;
    assert Predict(q, Tokenize(s.rest[0])) == if q.ArrayInitial? then ArrayFinish else ObjectFinish;
    var c := Close(cf, q, stack, s);
    hide Close, StackFits, Tokenize, Predict;
    assert Transit(cf, q, if q.ArrayInitial? then ArrayFinish else ObjectFinish, stack, s) == c;
  }

  lemma {:induction false} RunValue(cf: Config, q: State, stack: seq<Frame>, s: Progress)
    requires StackFits(q, stack) && s.error == NoError
    requires ExpectsValue(q, Peek(s.rest))
    ensures var r := ParseValue(cf, s);
            if r.error != NoError then Agree(Run(cf, q, stack, s), r)
            else Run(cf, q, stack, s) == Continue(cf, Leave(Resume(q)), stack, r)
    decreases |s.rest|, 1
  {
    hide ParseNumber, ParseString, ParseLiteral, ParseArray, ParseObject, Continue;
    var c := Peek(s.rest);
    if c == LBRACKET {
      hide Run;
      RunArray(cf, q, stack, s);
    } else if c == LCURLY {
      hide Run;
      RunObject(cf, q, stack, s);
    } else if c in {0, RBRACKET, RCURLY, COMMA, COLON} {
      // no value begins here: the reader fails in ParseNumber, the automaton has no move
      NoValueHere(cf, s);
    } else {
      hide Run;
      RunScalar(cf, q, stack, s);
    }
  }

  lemma {:induction false} RunArray(cf: Config, q: State, stack: seq<Frame>, s: Progress)
    requires StackFits(q, stack) && s.error == NoError
    requires ExpectsValue(q, Peek(s.rest)) && Peek(s.rest) == LBRACKET
    ensures var r := ParseArray(cf, s);
            if r.error != NoError then Agree(Run(cf, q, stack, s), r)
            else Run(cf, q, stack, s) == Continue(cf, Leave(Resume(q)), stack, r)
    decreases |s.rest|, 0
  {
    hide Run, Continue, ParseElements;
    RunOpen(cf, q, stack, s);
    var s1 := Emit(cf, Advance(s), StartArray);
    if s1.error == NoError {
      var stack' := stack + [Frame(Resume(q), 0)];
      assert stack'[..|stack|] == stack;
      if Peek(Skip(s1).rest) == RBRACKET {
        RunEmpty(cf, ArrayInitial, stack', Skip(s1));
      } else {
        RunElements(cf, ArrayInitial, stack', Skip(s1));
      }
    }
  }

  function CountOne(stack: seq<Frame>): (r: seq<Frame>)
    requires stack != []
    ensures |r| == |stack| && r[..|r| - 1] == stack[..|stack| - 1]
  {
    var top := stack[|stack| - 1];
    stack[..|stack| - 1] + [top.(commas := IncSize(top.commas))]
  }

  /** The moves of the automaton after an element or a member: on at a comma, out at the bracket, stuck otherwise. */
  lemma AfterItem(cf: Config, q: State, stack: seq<Frame>, s: Progress)
    requires StackFits(q, stack) && s.error == NoError && (q.Element? || q.MemberValue?)
    ensures var c := Peek(s.rest);
            var top := stack[|stack| - 1];
            if c == COMMA then
              Run(cf, q, stack, s) ==
                Run(cf, if q.Element? then ElementDelimiter else MemberDelimiter, CountOne(stack), Skip(Advance(s)))
            else if c == (if q.Element? then RBRACKET else RCURLY) then
              var count := IncSize(top.commas);
              var r := Emit(cf, Advance(s), if q.Element? then EndArray(count) else EndObject(count));
              if r.error != NoError then Agree(Run(cf, q, stack, s), r)
              else Run(cf, q, stack, s) == Continue(cf, Leave(top.resume), stack[..|stack| - 1], r)
            else Run(cf, q, stack, s) == Fail(s, if q.Element? then ArrayMissCommaOrSquareBracket else ObjectMissCommaOrCurlyBracket)
  {
    hide Run, Emit, Continue;
    if Peek(s.rest) == COMMA {
      AfterComma(cf, q, stack, s);
    } else if Peek(s.rest) == (if q.Element? then RBRACKET else RCURLY) {
      AfterLast(cf, q, stack, s);
    } else {
      AfterOther(cf, q, stack, s);
    }
  }

  lemma AfterComma(cf: Config, q: State, stack: seq<Frame>, s: Progress)
    requires StackFits(q, stack) && s.error == NoError && (q.Element? || q.MemberValue?) && Peek(s.rest) == COMMA
    ensures Run(cf, q, stack, s) ==
              Run(cf, if q.Element? then ElementDelimiter else MemberDelimiter, CountOne(stack), Skip(Advance(s)))
  {
    hide ParseNumber, ParseString, ParseLiteral, ParseValue, Emit, Open, Close;
  }

  lemma AfterLast(cf: Config, q: State, stack: seq<Frame>, s: Progress)
    requires StackFits(q, stack) && s.error == NoError && (q.Element? || q.MemberValue?)
    requires Peek(s.rest) == if q.Element? then RBRACKET else RCURLY
    ensures var top := stack[|stack| - 1];
            var count := IncSize(top.commas);
            var r := Emit(cf, Advance(s), if q.Element? then EndArray(count) else EndObject(count));
            if r.error != NoError then Agree(Run(cf, q, stack, s), r)
            else Run(cf, q, stack, s) == Continue(cf, Leave(top.resume), stack[..|stack| - 1], r)
  {
    hide Transit, Predict, Tokenize, Close, SkipSpace;
    ClosesLast(cf, q, stack, s);
  }

  lemma ClosesLast(cf: Config, q: State, stack: seq<Frame>, s: Progress)
    requires StackFits(q, stack) && s.error == NoError && (q.Element? || q.MemberValue?)
    requires Peek(s.rest) == if q.Element? then RBRACKET else RCURLY
    ensures var top, below := stack[|stack| - 1], stack[..|stack| - 1];
            var count := IncSize(top.commas);
            var r := Emit(cf, s, if q.Element? then EndArray(count) else EndObject(count));
            Transit(cf, q, Predict(q, Tokenize(s.rest[0])), stack, s) ==
              if r.error != NoError then Snapshot(Error, below, r) else Snapshot(Leave(top.resume), below, Advance(r))
  {
    hide ParseNumber, ParseString, ParseLiteral, ParseValue, Open, SkipSpace;
  }

  lemma AfterOther(cf: Config, q: State, stack: seq<Frame>, s: Progress)
    requires StackFits(q, stack) && s.error == NoError && (q.Element? || q.MemberValue?)
    requires Peek(s.rest) != COMMA && Peek(s.rest) != if q.Element? then RBRACKET else RCURLY
    ensures Run(cf, q, stack, s) == Fail(s, if q.Element? then ArrayMissCommaOrSquareBracket else ObjectMissCommaOrCurlyBracket)
  {
    hide ParseNumber, ParseString, ParseLiteral, ParseValue, Emit, Open, Close, SkipSpace;
  }

  lemma {:induction false} RunElements(cf: Config, q: State, stack: seq<Frame>, s: Progress)
    requires StackFits(q, stack) && s.error == NoError
    requires InArray(q) && ExpectsValue(q, Peek(s.rest))
    ensures var top := stack[|stack| - 1];
            var r := ParseElements(cf, s, top.commas);
            if r.error != NoError then Agree(Run(cf, q, stack, s), r)
            else Run(cf, q, stack, s) == Continue(cf, Back(q, stack), stack[..|stack| - 1], r)
    decreases |s.rest|, 2
  {
    hide ParseValue, Transit, Run;
    RunValue(cf, q, stack, s);
    var s1 := ParseValue(cf, s);
    if s1.error == NoError {
      var s2 := Skip(s1);
      AfterItem(cf, Element, stack, s2);
      if Peek(s2.rest) == COMMA {
        RunElements(cf, ElementDelimiter, CountOne(stack), Skip(Advance(s2)));
      }
    }
  }

  lemma {:induction false} RunObject(cf: Config, q: State, stack: seq<Frame>, s: Progress)
    requires StackFits(q, stack) && s.error == NoError
    requires ExpectsValue(q, Peek(s.rest)) && Peek(s.rest) == LCURLY
    ensures var r := ParseObject(cf, s);
            if r.error != NoError then Agree(Run(cf, q, stack, s), r)
            else Run(cf, q, stack, s) == Continue(cf, Leave(Resume(q)), stack, r)
    decreases |s.rest|, 0
  {
    hide Run, Continue, ParseMembers;
    RunOpen(cf, q, stack, s);
    var s1 := Emit(cf, Advance(s), StartObject);
    if s1.error == NoError {
      var stack' := stack + [Frame(Resume(q), 0)];
      assert stack'[..|stack|] == stack;
      if Peek(Skip(s1).rest) == RCURLY {
        RunEmpty(cf, ObjectInitial, stack', Skip(s1));
      } else {
        RunMembers(cf, ObjectInitial, stack', Skip(s1));
      }
    }
  }

  /** The moves of the automaton from a name to the value after its colon. */
  lemma RunName(cf: Config, q: State, stack: seq<Frame>, s: Progress)
    requires StackFits(q, stack) && s.error == NoError
    requires q.MemberDelimiter? || (q.ObjectInitial? && Peek(s.rest) != RCURLY)
    ensures Peek(s.rest) != QUOTE ==> Run(cf, q, stack, s) == Fail(s, ObjectMissName)
    ensures Peek(s.rest) == QUOTE ==>
              var s1 := ParseString(cf, s, true);
              var s2 := Skip(s1);
              if s1.error != NoError then Run(cf, q, stack, s) == s1
              else if Peek(s2.rest) == COLON then
                Run(cf, q, stack, s) == Run(cf, KeyValueDelimiter, stack, Skip(Advance(s2)))
              else Run(cf, q, stack, s) == Fail(s2, ObjectMissColon)
  {
    hide ParseNumber, ParseString, ParseLiteral, ParseValue, Emit, Open, Close;
    if Peek(s.rest) == QUOTE {
      var s1 := ParseString(cf, s, true);
      if s1.error == NoError {
        assert Run(cf, q, stack, s) == Run(cf, MemberKey, stack, Skip(s1));
      }
    }
  }

  lemma {:induction false} RunMembers(cf: Config, q: State, stack: seq<Frame>, s: Progress)
    requires StackFits(q, stack) && s.error == NoError
    requires q.MemberDelimiter? || (q.ObjectInitial? && Peek(s.rest) != RCURLY)
    ensures var top := stack[|stack| - 1];
            var r := ParseMembers(cf, s, top.commas);
            if r.error != NoError then Agree(Run(cf, q, stack, s), r)
            else Run(cf, q, stack, s) == Continue(cf, Back(q, stack), stack[..|stack| - 1], r)
    decreases |s.rest|, 2
  {
    hide ParseString, ParseValue, Transit, Run;
    RunName(cf, q, stack, s);
    if Peek(s.rest) == QUOTE {
      var s1 := ParseString(cf, s, true);
      var s2 := Skip(s1);
      if s1.error == NoError && Peek(s2.rest) == COLON {
        var s3 := Skip(Advance(s2));
        RunValue(cf, KeyValueDelimiter, stack, s3);
        var s4 := ParseValue(cf, s3);
        if s4.error == NoError {
          var s5 := Skip(s4);
          AfterItem(cf, MemberValue, stack, s5);
          if Peek(s5.rest) == COMMA {
            RunMembers(cf, MemberDelimiter, CountOne(stack), Skip(Advance(s5)));
          }
        }
      }
    }
  }

  /** The two parsers agree on every text, for every handler and every choice of flags. */
  lemma ParsersAgree(cf: Config, text: bytes)
    ensures Agree(ParseIterative(cf, text), ParseRecursive(cf, text))
  {
    var s := Skip(Progress(text, [], NoError));
    RunValue(cf, Start, [], s);
  }
}
