/** A handler that refuses an event ends the parse there: up to that event it was sent what any other handler is sent
    (reader.h). */
module Handlers {
  import opened Streams
  import opened Events
  import opened ReaderSpec
  import Automaton
  import Equivalence

  /** The same flags with a handler that never stops the parse. */
  function Patient(cf: Config): Config {
    cf.(accept := _ => true)
  }

  /** Whether a handler lets the parse go on when it has been sent the first `k` events. */
  predicate Goes(cf: Config, events: seq<Event>, k: int) {
    0 <= k <= |events| && cf.accept(events[..k])
  }

  predicate AllAccepted(cf: Config, events: seq<Event>, from: nat, to: int) {
    forall k | from < k <= to :: Goes(cf, events, k)
  }

  /** Whether the event before `k` is the first that it refuses. */
  predicate RefusedAt(cf: Config, events: seq<Event>, from: nat, k: nat) {
    from < k <= |events| && !Goes(cf, events, k) && AllAccepted(cf, events, from, k - 1)
  }

  /** Whether `r` is what is left of `all`, a parse from `s` on that nobody stopped. */
  predicate Cut(cf: Config, s: Progress, all: Progress, r: Progress) {
    && s.events <= all.events
    && if AllAccepted(cf, all.events, |s.events|, |all.events|) then r == all
       else r.error == Termination && r.events <= all.events && RefusedAt(cf, all.events, |s.events|, |r.events|)
  }

  lemma CutNothing(cf: Config, s: Progress, r: Progress)
    requires r.events == s.events
    ensures Cut(cf, s, r, r)
  {
  }

  lemma CutEmit(cf: Config, s: Progress, e: Event)
    requires s.error == NoError
    ensures Cut(cf, s, Emit(Patient(cf), s, e), Emit(cf, s, e))
  {
    var events := s.events + [e];
    assert events[..|events|] == events && events[..|s.events|] == s.events;
    assert Goes(cf, events, |events|) <==> cf.accept(events);
  }

  /** One part of a parse after another. */
  lemma Then(cf: Config, s: Progress, all: Progress, r: Progress, all': Progress, r': Progress)
    requires Cut(cf, s, all, r) && all.error == NoError && all.events <= all'.events
    requires if r == all then Cut(cf, all, all', r') else r' == r
    ensures Cut(cf, s, all', r')
  {
    GoesAlike(cf, all.events, all'.events);
    hide Goes;
    if AllAccepted(cf, all.events, |s.events|, |all.events|) {
      assert AllAccepted(cf, all'.events, |s.events|, |all'.events|) <==> AllAccepted(cf, all'.events, |all.events|, |all'.events|);
    } else {
      assert !Goes(cf, all'.events, |r.events|);
    }
  }

  lemma GoesAlike(cf: Config, events: seq<Event>, events': seq<Event>)
    requires events <= events'
    ensures forall k | k <= |events| :: Goes(cf, events, k) == Goes(cf, events', k)
  {
    forall k | k <= |events| ensures Goes(cf, events, k) == Goes(cf, events', k) {
      assert k >= 0 ==> events[..k] == events'[..k];
    }
  }

  // ---------------------------------------------------------------- every part of a parse

  lemma CutLiteral(cf: Config, s: Progress, lit: bytes, e: Event)
    requires s.rest != [] && s.error == NoError
    ensures Cut(cf, s, ParseLiteral(Patient(cf), s, lit, e), ParseLiteral(cf, s, lit, e))
  {
    hide Emit, Cut, TakeAll;
    var m := TakeAll(Next(s.rest), lit);
    if m.ok {
      CutEmit(cf, s.(rest := m.rest), e);
      SameEvents(cf, s, s.(rest := m.rest), Emit(Patient(cf), s.(rest := m.rest), e), Emit(cf, s.(rest := m.rest), e));
    } else {
      CutNothing(cf, s, Fail(s.(rest := m.rest), ValueInvalid));
    }
  }

  lemma SameEvents(cf: Config, s: Progress, s': Progress, all: Progress, r: Progress)
    requires Cut(cf, s', all, r) && s'.events == s.events
    ensures Cut(cf, s, all, r)
  {
  }

  lemma CutString(cf: Config, s: Progress, isKey: bool)
    requires s.rest != [] && s.error == NoError
    ensures Cut(cf, s, ParseString(Patient(cf), s, isKey), ParseString(cf, s, isKey))
  {
    hide Emit, Cut, ScanString;
    var scan := ScanString(cf.validate, Scanned([], Next(s.rest), NoError));
    if scan.error != NoError {
      CutNothing(cf, s, Progress(scan.rest, s.events, scan.error));
    } else {
      var e := if isKey then Key(scan.text) else String(scan.text);
      var s' := s.(rest := scan.rest);
      CutEmit(cf, s', e);
      SameEvents(cf, s, s', Emit(Patient(cf), s', e), Emit(cf, s', e));
    }
  }

  lemma CutNumber(cf: Config, s: Progress)
    requires s.error == NoError
    ensures Cut(cf, s, ParseNumber(Patient(cf), s), ParseNumber(cf, s))
  {
    hide Emit, Cut, ParseInteger, ParseFraction, ParseExponent, NumberEvent;
    var minus := Peek(s.rest) == MINUS;
    var n := ParseInteger(cf.float, if minus then Next(s.rest) else s.rest, minus);
    CutNothing(cf, s, Progress(n.rest, s.events, n.error));
    if n.error == NoError {
      var (f, expFrac) := ParseFraction(cf.float, n);
      CutNothing(cf, s, Progress(f.rest, s.events, f.error));
      if f.error == NoError {
        var (e, exp) := ParseExponent(cf.float, f);
        CutNothing(cf, s, Progress(e.rest, s.events, e.error));
        if e.error == NoError {
          NumberFits(cf, n, f);
          var event, s' := NumberEvent(cf.float, e, minus, exp, expFrac), s.(rest := e.rest);
          CutEmit(cf, s', event);
          SameEvents(cf, s, s', Emit(Patient(cf), s', event), Emit(cf, s', event));
        }
      }
    }
  }

  lemma NumberFits(cf: Config, n: Number, f: Number)
    requires n.value < 0x1_0000_0000_0000_0000 && f == ParseFraction(cf.float, n).0
    requires n.useDouble || n.use64bit || n.value < 0x1_0000_0000
    ensures var e := ParseExponent(cf.float, f).0;
            e.value < 0x1_0000_0000_0000_0000 && (e.useDouble || e.use64bit || e.value < 0x1_0000_0000)
  {
    hide ParseExponent, FractionBits, FractionDigits;
  }

  lemma {:induction false} CutValue(cf: Config, s: Progress)
    requires s.error == NoError
    ensures Cut(cf, s, ParseValue(Patient(cf), s), ParseValue(cf, s))
    decreases |s.rest|, 1
  {
    hide ParseNumber, ParseString, ParseLiteral, ParseObject, ParseArray, Cut, Patient;
    var c := Peek(s.rest);
    if c == 0x6E {
      CutLiteral(cf, s, ULL, Null);
    } else if c == 0x74 {
      CutLiteral(cf, s, RUE, Bool(true));
    } else if c == 0x66 {
      CutLiteral(cf, s, ALSE, Bool(false));
    } else if c == QUOTE {
      CutString(cf, s, false);
    } else if c == LCURLY {
      CutObject(cf, s);
    } else if c == LBRACKET {
      CutArray(cf, s);
    } else {
      CutNumber(cf, s);
    }
  }

  lemma {:induction false} CutObject(cf: Config, s: Progress)
    requires s.error == NoError && s.rest != []
    ensures Cut(cf, s, ParseObject(Patient(cf), s), ParseObject(cf, s))
    decreases |s.rest|, 0
  {
    hide Emit, Cut, ParseMembers, Patient, SkipSpace;
    var s0 := s.(rest := Next(s.rest));
    var all1, r1 := Emit(Patient(cf), s0, StartObject), Emit(cf, s0, StartObject);
    CutEmit(cf, s0, StartObject);
    SameEvents(cf, s, s0, all1, r1);
    EmitPatiently(cf, s0, StartObject);
    var s2 := Skip(all1);
    if Peek(s2.rest) == RCURLY {
      CutAfter(cf, s, all1, r1, s2.(rest := Next(s2.rest)), EndObject(0));
    } else {
      CutMembers(cf, s2, 0);
      Onwards(cf, s, all1, r1, s2, ParseMembers(Patient(cf), s2, 0), ParseMembers(cf, s2, 0), ParseObject(cf, s));
    }
  }

  lemma EmitPatiently(cf: Config, s: Progress, e: Event)
    ensures Emit(Patient(cf), s, e) == s.(events := s.events + [e])
    ensures Emit(cf, s, e).events == s.events + [e]
    ensures Emit(cf, s, e).error == s.error || Emit(cf, s, e).error == Termination
    ensures Emit(cf, s, e).error == NoError && s.error == NoError ==> Emit(cf, s, e) == Emit(Patient(cf), s, e)
  {
  }

  /** A parse that went on from `s2`, which differs from where the first part ended by the text left only. */
  lemma Onwards(cf: Config, s: Progress, all1: Progress, r1: Progress, s2: Progress, all': Progress, r2: Progress, r': Progress)
    requires Cut(cf, s, all1, r1) && s2.events == all1.events && Cut(cf, s2, all', r2)
    requires all1.error == NoError && r' == if r1.error != NoError then r1 else r2
    ensures Cut(cf, s, all', r')
  {
    if r1 == all1 {
      SameEvents(cf, all1, s2, all', r2);
    }
    assert r1 != all1 ==> r1.error == Termination;
    assert s2.events <= all'.events;
    hide Cut;
    Then(cf, s, all1, r1, all', r');
  }

  lemma CutAfter(cf: Config, s: Progress, all1: Progress, r1: Progress, s2: Progress, e: Event)
    requires Cut(cf, s, all1, r1) && s2.events == all1.events && s2.error == NoError && all1.error == NoError
    ensures Cut(cf, s, Emit(Patient(cf), s2, e), if r1.error != NoError then r1 else Emit(cf, s2, e))
  {
    hide Cut, Emit;
    CutEmit(cf, s2, e);
    Onwards(cf, s, all1, r1, s2, Emit(Patient(cf), s2, e), Emit(cf, s2, e),
            if r1.error != NoError then r1 else Emit(cf, s2, e));
  }

  /** What goes wrong in the text goes wrong for every handler. */
  lemma CutFails(cf: Config, s: Progress, all1: Progress, r1: Progress, all': Progress)
    requires Cut(cf, s, all1, r1) && all'.events == all1.events && all1.error == NoError
    ensures Cut(cf, s, all', if r1.error != NoError then r1 else all')
  {
    CutNothing(cf, all1, all');
    Onwards(cf, s, all1, r1, all1, all', all', if r1.error != NoError then r1 else all');
  }

  /** Where the text itself is wrong, both parses have failed. */
  lemma BothFail(cf: Config, s: Progress, all1: Progress, r1: Progress)
    requires Cut(cf, s, all1, r1) && all1.error != NoError
    ensures r1.error != NoError
  {
  }

  lemma {:induction false} CutMembers(cf: Config, s: Progress, count: uint32)
    requires s.error == NoError
    ensures Cut(cf, s, ParseMembers(Patient(cf), s, count), ParseMembers(cf, s, count))
    decreases |s.rest|, 2
  {
    hide Emit, Cut, ParseValue, ParseString, Patient, SkipSpace;
    if Peek(s.rest) != QUOTE {
      CutNothing(cf, s, Fail(s, ObjectMissName));
    } else {
      var all1, r1 := ParseString(Patient(cf), s, true), ParseString(cf, s, true);
      CutString(cf, s, true);
      if all1.error != NoError {
        BothFail(cf, s, all1, r1);
      } else {
        var s2 := Skip(all1);
        var s3 := s2.(rest := Next(s2.rest));
        if Peek(s2.rest) != COLON {
          CutFails(cf, s, all1, r1, Fail(s3, ObjectMissColon));
        } else {
          var s4 := Skip(s3);
          CutMember(cf, s, count, all1, r1, s4);
        }
      }
      MembersWentOn(cf, s, count);
      MembersWentOn(Patient(cf), s, count);
      SameOrFailed(cf, s, all1, r1);
    }
  }

  /** From the value of a member on. */
  lemma {:induction false} CutMember(cf: Config, s: Progress, count: uint32, all1: Progress, r1: Progress, s4: Progress)
    requires Cut(cf, s, all1, r1) && all1.error == NoError && s4.error == NoError && s4.events == all1.events
    requires |s4.rest| < |s.rest|
    ensures Cut(cf, s, FromValue(Patient(cf), s4, count), if r1.error != NoError then r1 else FromValue(cf, s4, count))
    decreases |s.rest|, 1
  {
    hide Emit, Cut, ParseValue, ParseMembers, Patient, SkipSpace;
    CutValue(cf, s4);
    var all2, r2 := ParseValue(Patient(cf), s4), ParseValue(cf, s4);
    var r := if r1.error != NoError then r1 else r2;
    Onwards(cf, s, all1, r1, s4, all2, r2, r);
    if all2.error != NoError {
      BothFail(cf, s4, all2, r2);
    } else {
      var s5 := Skip(all2);
      var s6 := s5.(rest := Next(s5.rest));
      SameOrStopped(cf, s4, all2, r2);
      if Peek(s5.rest) == COMMA {
        CutMembers(cf, Skip(s6), IncSize(count));
        Onwards(cf, s, all2, r, Skip(s6), ParseMembers(Patient(cf), Skip(s6), IncSize(count)),
                ParseMembers(cf, Skip(s6), IncSize(count)), if r1.error != NoError then r1 else FromValue(cf, s4, count));
      } else if Peek(s5.rest) == RCURLY {
        CutAfter(cf, s, all2, r, s6, EndObject(IncSize(count)));
      } else {
        CutFails(cf, s, all2, r, Fail(s6, ObjectMissCommaOrCurlyBracket));
      }
    }
  }

  lemma SameOrFailed(cf: Config, s: Progress, all: Progress, r: Progress)
    requires Cut(cf, s, all, r)
    ensures r == all || r.error == Termination
  {
  }

  lemma SameOrStopped(cf: Config, s: Progress, all: Progress, r: Progress)
    requires Cut(cf, s, all, r) && all.error == NoError
    ensures r == all || r.error == Termination
  {
  }

  /** The loop of ParseObject from the value of a member on. */
  function FromValue(cf: Config, s4: Progress, count: uint32): Progress
    requires s4.error == NoError
  {
    var s := ParseValue(cf, s4);
    if s.error != NoError then s else
      var s5 := Skip(s);
      var s6 := s5.(rest := Next(s5.rest));
      if Peek(s5.rest) == COMMA then ParseMembers(cf, Skip(s6), IncSize(count))
      else if Peek(s5.rest) == RCURLY then Emit(cf, s6, EndObject(IncSize(count)))
      else Fail(s6, ObjectMissCommaOrCurlyBracket)
  }

  lemma MembersWentOn(cf: Config, s: Progress, count: uint32)
    requires s.error == NoError && Peek(s.rest) == QUOTE
    ensures ParseMembers(cf, s, count) ==
              var s1 := ParseString(cf, s, true);
              if s1.error != NoError then s1 else
                var s2 := Skip(s1);
                var s3 := s2.(rest := Next(s2.rest));
                if Peek(s2.rest) != COLON then Fail(s3, ObjectMissColon) else FromValue(cf, Skip(s3), count)
  {
    hide ParseValue, ParseString, SkipSpace, Emit;
  }

  lemma {:induction false} CutArray(cf: Config, s: Progress)
    requires s.error == NoError && s.rest != []
    ensures Cut(cf, s, ParseArray(Patient(cf), s), ParseArray(cf, s))
    decreases |s.rest|, 0
  {
    hide Emit, Cut, ParseElements, Patient, SkipSpace;
    var s0 := s.(rest := Next(s.rest));
    var all1, r1 := Emit(Patient(cf), s0, StartArray), Emit(cf, s0, StartArray);
    CutEmit(cf, s0, StartArray);
    SameEvents(cf, s, s0, all1, r1);
    EmitPatiently(cf, s0, StartArray);
    var s2 := Skip(all1);
    if Peek(s2.rest) == RBRACKET {
      CutAfter(cf, s, all1, r1, s2.(rest := Next(s2.rest)), EndArray(0));
    } else {
      CutElements(cf, s2, 0);
      Onwards(cf, s, all1, r1, s2, ParseElements(Patient(cf), s2, 0), ParseElements(cf, s2, 0), ParseArray(cf, s));
    }
  }

  lemma {:induction false} CutElements(cf: Config, s: Progress, count: uint32)
    requires s.error == NoError
    ensures Cut(cf, s, ParseElements(Patient(cf), s, count), ParseElements(cf, s, count))
    decreases |s.rest|, 2
  {
    hide Emit, Cut, ParseValue, Patient, SkipSpace;
    CutValue(cf, s);
    var all1, r1 := ParseValue(Patient(cf), s), ParseValue(cf, s);
    if all1.error != NoError {
      BothFail(cf, s, all1, r1);
    } else {
      var s2 := Skip(all1);
      var s3 := s2.(rest := Next(s2.rest));
      SameOrStopped(cf, s, all1, r1);
      if Peek(s2.rest) == COMMA {
        CutElements(cf, Skip(s3), IncSize(count));
        Onwards(cf, s, all1, r1, Skip(s3), ParseElements(Patient(cf), Skip(s3), IncSize(count)),
                ParseElements(cf, Skip(s3), IncSize(count)), ParseElements(cf, s, count));
      } else if Peek(s2.rest) == RBRACKET {
        CutAfter(cf, s, all1, r1, s3, EndArray(IncSize(count)));
      } else {
        CutFails(cf, s, all1, r1, Fail(s3, ArrayMissCommaOrSquareBracket));
      }
    }
  }

  // ---------------------------------------------------------------- whole parses

  /** Both parsers send a handler the events that any handler is sent, up to and with the first that it refuses, and stop
      there. If it refuses none, they end as for any handler. */
  lemma RefusalEndsTheParse(cf: Config, text: bytes)
    ensures var all := ParseRecursive(Patient(cf), text);
            && Cut(cf, Progress(text, [], NoError), all, ParseRecursive(cf, text))
            && Equivalence.Agree(Automaton.ParseIterative(cf, text), ParseRecursive(cf, text))
  {
    hide Cut, ParseValue, Patient, SkipSpace, Automaton.ParseIterative;
    var s0, s := Progress(text, [], NoError), Skip(Progress(text, [], NoError));
    Equivalence.ParsersAgree(cf, text);
    if Peek(s.rest) == 0 {
      CutNothing(cf, s0, Fail(s, DocumentEmpty));
    } else {
      var all1, r1 := ParseValue(Patient(cf), s), ParseValue(cf, s);
      CutValue(cf, s);
      SameEvents(cf, s0, s, all1, r1);
      PatientFlags(cf);
      if all1.error != NoError {
        BothFail(cf, s0, all1, r1);
      } else {
        SameOrStopped(cf, s, all1, r1);
        var s2 := Skip(all1);
        if !cf.stopWhenDone {
          CutFails(cf, s0, all1, r1, if Peek(s2.rest) != 0 then Fail(s2, DocumentRootNotSingular) else s2);
        }
      }
    }
  }

  lemma PatientFlags(cf: Config)
    ensures Patient(cf).stopWhenDone == cf.stopWhenDone && Patient(cf).validate == cf.validate
    ensures AcceptsAll(Patient(cf))
  {
  }
}
