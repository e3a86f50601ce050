/** Writer and PrettyWriter as handlers: a level for each open bracket decides the separators (writer.h, prettywriter.h). */
module WriterSpec {
  import opened Streams
  import opened Events
  import opened Dom
  import opened Numbers
  import opened Text
  import Quoting
  import Utf8

  datatype Level = Level(inArray: bool, valueCount: nat)

  datatype WriterState = WriterState(style: Style, os: bytes, levels: seq<Level>, hasRoot: bool)

  /** Prefix and PrettyPrefix: the separator before a value. Refused where an assertion would fail. */
  function Prefix(w: WriterState, isString: bool): (WriterState, bool) {
    if w.levels == [] then
      if w.hasRoot then (w, false) else (w.(hasRoot := true), true)
    else
      var top := w.levels[|w.levels| - 1];
      if !top.inArray && top.valueCount % 2 == 0 && !isString then (w, false) else
        (w.(os := w.os + Separator(w.style, top, |w.levels|),
            levels := w.levels[..|w.levels| - 1] + [top.(valueCount := top.valueCount + 1)]), true)
  }

  function Separator(st: Style, top: Level, depth: nat): bytes {
    if st.pretty then
      if top.inArray then (if top.valueCount > 0 then [COMMA] else []) + NewLine(st, depth)
      else if top.valueCount % 2 == 0 then (if top.valueCount > 0 then [COMMA] else []) + NewLine(st, depth)
      else [COLON] + AfterColon(st)
    else if top.valueCount == 0 then []
    else if top.inArray then [COMMA]
    else if top.valueCount % 2 == 0 then [COMMA] else [COLON]
  }

  function Put(p: (WriterState, bool), text: bytes): (WriterState, bool) {
    if p.1 then (p.0.(os := p.0.os + text), true) else p
  }

  function Open(p: (WriterState, bool), inArray: bool, bracket: byte): (WriterState, bool) {
    if p.1 then (p.0.(levels := p.0.levels + [Level(inArray, 0)], os := p.0.os + [bracket]), true) else p
  }

  function Close(w: WriterState, inArray: bool, bracket: byte): (WriterState, bool) {
    if w.levels == [] || w.levels[|w.levels| - 1].inArray != inArray then (w, false) else
      var empty := w.levels[|w.levels| - 1].valueCount == 0;
      var below := w.levels[..|w.levels| - 1];
      (w.(levels := below, os := w.os + (if empty then [] else NewLine(w.style, |below|)) + [bracket]), true)
  }

  function WriteText(p: (WriterState, bool), s: bytes): (WriterState, bool) {
    var q := Quoting.WriteString(p.0.style.ascii, s);
    if p.1 && q.ok then Put(p, q.text) else (p.0, false)
  }

  /** One event. Doubles are not modelled: WriteDouble's text is left out and the event refused. */
  function Step(w: WriterState, e: Event): (WriterState, bool) {
    match e
    case Null => Put(Prefix(w, false), NULL)
    case Bool(b) => Put(Prefix(w, false), if b then TRUE else FALSE)
    case Int(i) => Put(Prefix(w, false), DecimalInt(i))
    case Uint(u) => Put(Prefix(w, false), Decimal(u))
    case Int64(i) => Put(Prefix(w, false), DecimalInt(i))
    case Uint64(u) => Put(Prefix(w, false), Decimal(u))
    case Double(_) => (w, false)
    case String(s) => WriteText(Prefix(w, true), s)
    case Key(s) => WriteText(Prefix(w, true), s)
    case StartObject => Open(Prefix(w, false), false, LCURLY)
    case StartArray => Open(Prefix(w, false), true, LBRACKET)
    case EndObject(_) => Close(w, false, RCURLY)
    case EndArray(_) => Close(w, true, RBRACKET)
  }

  // ---------------------------------------------------------------- a value is written as its text

  /** Whether a value, and not a name, comes next. */
  predicate WantsValue(w: WriterState) {
    if w.levels == [] then !w.hasRoot else
      var top := w.levels[|w.levels| - 1];
      top.inArray || top.valueCount % 2 == 1
  }

  predicate Writable(st: Style, v: Value) {
    Built(v) && NoDoubles(v) && (st.ascii ==> Strings(v, Utf8.WellFormed))
  }

  /** The state after the separator of a value. */
  function Begun(w: WriterState): WriterState {
    Prefix(w, false).0
  }

  lemma {:induction false} WritesText(w: WriterState, v: Value)
    requires WantsValue(w) && Writable(w.style, v)
    ensures Feed(Step, w, EventsOf(ByAccept, v)) ==
              (Begun(w).(os := Begun(w).os + TextOf(w.style, v, |w.levels|)), true)
    decreases v, Width(v) + 2
  {
    hide Feed, Step, TextOf;
    if v.ArrayValue? {
      WritesArray(w, v);
    } else if v.ObjectValue? {
      WritesObject(w, v);
    } else {
      WritesScalar(w, v);
    }
  }

  lemma {:induction false} WritesArray(w: WriterState, v: Value)
    requires WantsValue(w) && Writable(w.style, v) && v.ArrayValue?
    ensures Feed(Step, w, EventsOf(ByAccept, v)) ==
              (Begun(w).(os := Begun(w).os + TextOf(w.style, v, |w.levels|)), true)
    decreases v, Width(v) + 1
  {
    hide Feed, Step, TextOf;
    var w1 := Begun(w).(levels := Begun(w).levels + [Level(true, 0)], os := Begun(w).os + [LBRACKET]);
    Opens(w);
    FeedBracketed(Step, w, StartArray, ElementEvents(ByAccept, v, 0), EndArray(|v.elements|));
    WritesElements(w1, Begun(w).levels, v, 0);
    ArrayEnds(w, v, w1);
  }

  lemma {:induction false} WritesObject(w: WriterState, v: Value)
    requires WantsValue(w) && Writable(w.style, v) && v.ObjectValue?
    ensures Feed(Step, w, EventsOf(ByAccept, v)) ==
              (Begun(w).(os := Begun(w).os + TextOf(w.style, v, |w.levels|)), true)
    decreases v, Width(v) + 1
  {
    hide Feed, Step, TextOf;
    var w1 := Begun(w).(levels := Begun(w).levels + [Level(false, 0)], os := Begun(w).os + [LCURLY]);
    Opens(w);
    FeedBracketed(Step, w, StartObject, MemberEvents(ByAccept, v, 0), EndObject(|v.members|));
    WritesMembers(w1, Begun(w).levels, v, 0);
    ObjectEnds(w, v, w1);
  }

  lemma WritesScalar(w: WriterState, v: Value)
    requires WantsValue(w) && Writable(w.style, v) && !v.ArrayValue? && !v.ObjectValue?
    ensures Feed(Step, w, EventsOf(ByAccept, v)) ==
              (Begun(w).(os := Begun(w).os + TextOf(w.style, v, |w.levels|)), true)
  {
    hide Prefix, Decimal, Feed, Quoting.WriteString;
    FeedOne(Step, w, EventsOf(ByAccept, v)[0]);
    PrefixOfValue(w);
    if v.StringValue? {
      Quoting.StringRoundTrip(w.style.ascii, false, v.text, []);
    }
  }

  lemma PrefixOfValue(w: WriterState)
    requires WantsValue(w)
    ensures Prefix(w, false) == Prefix(w, true) == (Begun(w), true)
    ensures Begun(w).style == w.style && |Begun(w).levels| == |w.levels|
  {
  }

  lemma Opens(w: WriterState)
    requires WantsValue(w)
    ensures Step(w, StartArray) ==
              (Begun(w).(levels := Begun(w).levels + [Level(true, 0)], os := Begun(w).os + [LBRACKET]), true)
    ensures Step(w, StartObject) ==
              (Begun(w).(levels := Begun(w).levels + [Level(false, 0)], os := Begun(w).os + [LCURLY]), true)
  {
    PrefixOfValue(w);
  }

  /** Inside an array after `k` elements, the others and their separators. */
  lemma {:induction false} WritesElements(w: WriterState, below: seq<Level>, v: Value, k: nat)
    requires v.ArrayValue? && Writable(w.style, v) && k <= |v.elements|
    requires w.levels == below + [Level(true, k)]
    ensures Feed(Step, w, ElementEvents(ByAccept, v, k)) ==
              (w.(levels := below + [Level(true, |v.elements|)],
                  os := w.os + ElementsText(w.style, v, k, |below|)), true)
    decreases v, |v.elements| - k
  {
    hide Feed, Step, TextOf, EventsOf;
    if k < |v.elements| {
      var e := v.elements[k];
      ElementBegins(w, below, k);
      WritesText(w, e);
      var text := TextOf(w.style, e, |below| + 1);
      var w' := Begun(w).(os := Begun(w).os + text);
      FeedAppend(Step, w, EventsOf(ByAccept, e), ElementEvents(ByAccept, v, k + 1));
      WritesElements(w', below, v, k + 1);
      assert w.os + Between(w.style, k, |below| + 1) + text + ElementsText(w.style, v, k + 1, |below|)
          == w.os + (Between(w.style, k, |below| + 1) + text + ElementsText(w.style, v, k + 1, |below|));
    } else {
      FeedNothing(Step, w);
      assert w.os + [] == w.os;
    }
  }

  lemma ElementBegins(w: WriterState, below: seq<Level>, k: nat)
    requires w.levels == below + [Level(true, k)]
    ensures WantsValue(w)
    ensures Begun(w) == w.(levels := below + [Level(true, k + 1)], os := w.os + Between(w.style, k, |below| + 1))
  {
    assert w.levels[..|below|] == below;
    assert !w.style.pretty ==> NewLine(w.style, |below| + 1) == [];
    assert !w.style.pretty ==> Between(w.style, k, |below| + 1) == if k > 0 then [COMMA] else [];
  }

  /** Inside an object after `k` members, the others and their separators. */
  lemma {:induction false} WritesMembers(w: WriterState, below: seq<Level>, v: Value, k: nat)
    requires v.ObjectValue? && Writable(w.style, v) && k <= |v.members|
    requires w.levels == below + [Level(false, 2 * k)]
    ensures Feed(Step, w, MemberEvents(ByAccept, v, k)) ==
              (w.(levels := below + [Level(false, 2 * |v.members|)],
                  os := w.os + MembersText(w.style, v, k, |below|)), true)
    decreases v, |v.members| - k
  {
    hide Feed, Step, TextOf, EventsOf, Quoted, Between, AfterColon, Begun, WantsValue;
    if k < |v.members| {
      var m := v.members[k];
      var w1 := WritesKey(w, below, v, k);
      ValueBegins(w1, below, k);
      WritesText(w1, m.value);
      var text, rest := TextOf(w.style, m.value, |below| + 1), MembersText(w.style, v, k + 1, |below|);
      var w2 := Begun(w1).(os := Begun(w1).os + text);
      FeedMember(Step, w, Key(m.name), EventsOf(ByAccept, m.value), MemberEvents(ByAccept, v, k + 1));
      WritesMembers(w2, below, v, k + 1);
      Join5(w.os, Between(w.style, k, |below| + 1), Quoted(w.style, m.name), [COLON] + AfterColon(w.style), text, rest);
    } else {
      FeedNothing(Step, w);
      assert w.os + [] == w.os;
    }
  }

  lemma Join5(os: bytes, a: bytes, b: bytes, c: bytes, d: bytes, e: bytes)
    ensures os + a + b + c + d + e == os + (a + b + c + d + e)
  {
  }

  lemma KeyBegins(w: WriterState, below: seq<Level>, k: nat)
    requires w.levels == below + [Level(false, 2 * k)]
    ensures Prefix(w, true) == (w.(levels := below + [Level(false, 2 * k + 1)],
                                   os := w.os + Between(w.style, k, |below| + 1)), true)
  {
    hide Repeat;
    assert w.levels[..|below|] == below;
    assert w.style.pretty || Between(w.style, k, |below| + 1) == if k > 0 then [COMMA] else [];
  }

  lemma WritesKey(w: WriterState, below: seq<Level>, v: Value, k: nat) returns (w': WriterState)
    requires v.ObjectValue? && Writable(w.style, v) && k < |v.members|
    requires w.levels == below + [Level(false, 2 * k)]
    ensures Step(w, Key(v.members[k].name)) == (w', true)
    ensures w' == w.(levels := below + [Level(false, 2 * k + 1)],
                     os := w.os + Between(w.style, k, |below| + 1) + Quoted(w.style, v.members[k].name))
  {
    hide Quoting.WriteString, Prefix, Between, Utf8.WellFormed;
    Quoting.StringRoundTrip(w.style.ascii, false, v.members[k].name, []);
    KeyBegins(w, below, k);
    w' := Step(w, Key(v.members[k].name)).0;
  }

  lemma ValueBegins(w: WriterState, below: seq<Level>, k: nat)
    requires w.levels == below + [Level(false, 2 * k + 1)]
    ensures WantsValue(w)
    ensures Begun(w) == w.(levels := below + [Level(false, 2 * k + 2)], os := w.os + ([COLON] + AfterColon(w.style)))
  {
    assert w.levels[..|below|] == below;
    assert [COLON] + [] == [COLON];
  }

  lemma FeedNothing<S>(h: Handler<S>, s: S)
    ensures Feed(h, s, []) == (s, true)
  {
  }

  /** What the bracket that closes does to the innermost level. */
  lemma Closes(w: WriterState, below: seq<Level>, inArray: bool, count: nat, bracket: byte)
    requires w.levels == below + [Level(inArray, count)]
    ensures Close(w, inArray, bracket) ==
              (w.(levels := below, os := w.os + LastLine(w.style, count, |below|) + [bracket]), true)
  {
    assert w.levels[..|below|] == below;
  }

  lemma Join4(os: bytes, a: bytes, b: bytes, c: bytes, d: bytes)
    ensures os + a + b + c + d == os + (a + b + c + d)
  {
  }

  lemma ArrayEnds(w: WriterState, v: Value, w1: WriterState)
    requires WantsValue(w) && v.ArrayValue? && NoDoubles(v) && |v.elements| < SIZE_MODULUS
    requires w1 == Begun(w).(levels := Begun(w).levels + [Level(true, 0)], os := Begun(w).os + [LBRACKET])
    ensures var w2 := w1.(levels := Begun(w).levels + [Level(true, |v.elements|)],
                          os := w1.os + ElementsText(w.style, v, 0, |w.levels|));
            Step(w2, EndArray(|v.elements|)) ==
              (Begun(w).(os := Begun(w).os + TextOf(w.style, v, |w.levels|)), true)
  {
    hide Begun, ElementsText, Close, LastLine;
    PrefixOfValue(w);
    var body := ElementsText(w.style, v, 0, |w.levels|);
    var w2 := w1.(levels := Begun(w).levels + [Level(true, |v.elements|)], os := w1.os + body);
    Closes(w2, Begun(w).levels, true, |v.elements|, RBRACKET);
    Join4(Begun(w).os, [LBRACKET], body, LastLine(w.style, |v.elements|, |w.levels|), [RBRACKET]);
  }

  lemma ObjectEnds(w: WriterState, v: Value, w1: WriterState)
    requires WantsValue(w) && v.ObjectValue? && NoDoubles(v) && |v.members| < SIZE_MODULUS
    requires w1 == Begun(w).(levels := Begun(w).levels + [Level(false, 0)], os := Begun(w).os + [LCURLY])
    ensures var w2 := w1.(levels := Begun(w).levels + [Level(false, 2 * |v.members|)],
                          os := w1.os + MembersText(w.style, v, 0, |w.levels|));
            Step(w2, EndObject(|v.members|)) ==
              (Begun(w).(os := Begun(w).os + TextOf(w.style, v, |w.levels|)), true)
  {
    hide Begun, MembersText, Close;
    PrefixOfValue(w);
    var n := |v.members|;
    var body := MembersText(w.style, v, 0, |w.levels|);
    var w2 := w1.(levels := Begun(w).levels + [Level(false, 2 * n)], os := w1.os + body);
    Closes(w2, Begun(w).levels, false, 2 * n, RCURLY);
    assert LastLine(w.style, 2 * n, |w.levels|) == LastLine(w.style, n, |w.levels|);
    Join4(Begun(w).os, [LCURLY], body, LastLine(w.style, n, |w.levels|), [RCURLY]);
  }
}
