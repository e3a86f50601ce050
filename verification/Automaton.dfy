/** The table-driven parser of reader.h: states, tokens, the table, one transition, and the run. */
module Automaton {
  import opened Streams
  import opened Events
  import opened ReaderSpec

  datatype State =
    | Start
    | Finish
    | Error
    | ObjectInitial
    | MemberKey
    | KeyValueDelimiter
    | MemberValue
    | MemberDelimiter
    | ObjectFinish
    | ArrayInitial
    | Element
    | ElementDelimiter
    | ArrayFinish
    | SingleValue

  datatype Token =
    | LeftBracket
    | RightBracket
    | LeftCurlyBracket
    | RightCurlyBracket
    | Comma
    | Colon
    | StringToken
    | FalseToken
    | TrueToken
    | NullToken
    | NumberToken

  function Tokenize(c: byte): Token {
    if c == QUOTE then StringToken
    else if c == COMMA then Comma
    else if c == COLON then Colon
    else if c == LBRACKET then LeftBracket
    else if c == RBRACKET then RightBracket
    else if c == 0x66 then FalseToken
    else if c == 0x6E then NullToken
    else if c == 0x74 then TrueToken
    else if c == LCURLY then LeftCurlyBracket
    else if c == RCURLY then RightCurlyBracket
    else NumberToken
  }

  predicate IsScalarToken(t: Token) {
    t.StringToken? || t.FalseToken? || t.TrueToken? || t.NullToken? || t.NumberToken?
  }

  /** The table G: where a value begins, which scalars and brackets are allowed, what may follow. */
  function Predict(state: State, t: Token): State {
    match state
    case Start =>
      if t.LeftBracket? then ArrayInitial else if t.LeftCurlyBracket? then ObjectInitial
      else if IsScalarToken(t) then SingleValue else Error
    case ObjectInitial =>
      if t.RightCurlyBracket? then ObjectFinish else if t.StringToken? then MemberKey else Error
    case MemberKey =>
      if t.Colon? then KeyValueDelimiter else Error
    case KeyValueDelimiter =>
      if t.LeftBracket? then ArrayInitial else if t.LeftCurlyBracket? then ObjectInitial
      else if IsScalarToken(t) then MemberValue else Error
    case MemberValue =>
      if t.RightCurlyBracket? then ObjectFinish else if t.Comma? then MemberDelimiter else Error
    case MemberDelimiter =>
      if t.StringToken? then MemberKey else Error
    case ArrayInitial =>
      if t.LeftBracket? then ArrayInitial else if t.RightBracket? then ArrayFinish
      else if t.LeftCurlyBracket? then ObjectInitial
      else if IsScalarToken(t) then Element else Error
    case Element =>
      if t.RightBracket? then ArrayFinish else if t.Comma? then ElementDelimiter else Error
    case ElementDelimiter =>
      if t.LeftBracket? then ArrayInitial else if t.LeftCurlyBracket? then ObjectInitial
      else if IsScalarToken(t) then Element else Error
    case Finish => Error
    case Error => Error
    case ObjectFinish => Error
    case ArrayFinish => Error
    case SingleValue => Error
  }

  /** One open bracket: the state to resume when it closes, and the commas seen in it. */
  datatype Frame = Frame(resume: State, commas: uint32)

  predicate InObject(q: State) {
    q.ObjectInitial? || q.MemberKey? || q.KeyValueDelimiter? || q.MemberValue? || q.MemberDelimiter?
  }

  predicate InArray(q: State) {
    q.ArrayInitial? || q.Element? || q.ElementDelimiter?
  }

  /** The stack of a state the parser can rest in: empty outside all brackets, otherwise one frame
      for each open bracket, only the outermost resuming at the start. */
  predicate StackFits(q: State, stack: seq<Frame>) {
    && !q.ObjectFinish? && !q.ArrayFinish? && !q.SingleValue?
    && (q.Start? || q.Finish? ==> stack == [])
    && (InObject(q) || InArray(q) ==> stack != [])
    && forall i | 0 <= i < |stack| ::
         if i == 0 then stack[i].resume.Start? else stack[i].resume.Element? || stack[i].resume.MemberValue?
  }

  datatype Snapshot = Snapshot(state: State, stack: seq<Frame>, s: Progress)

  /** The state to come back to after a bracket opened in `src`. */
  function Resume(src: State): State {
    if src.ArrayInitial? || src.ElementDelimiter? then Element
    else if src.KeyValueDelimiter? then MemberValue
    else src
  }

  function Advance(s: Progress): Progress {
    s.(rest := Next(s.rest))
  }

  /** A bracket opens: the state to come back to is pushed, with a count of commas. */
  function Open(cf: Config, src: State, dst: State, stack: seq<Frame>, s: Progress): Snapshot {
    var s' := Emit(cf, s, if dst.ObjectInitial? then StartObject else StartArray);
    var stack' := stack + [Frame(Resume(src), 0)];
    if s'.error != NoError then Snapshot(Error, stack', s') else Snapshot(dst, stack', Advance(s'))
  }

  /** A bracket closes: its frame is popped, its last member or element counted. */
  function Close(cf: Config, src: State, stack: seq<Frame>, s: Progress): (r: Snapshot)
    requires StackFits(src, stack) && stack != [] && s.error == NoError
    ensures r.state.Error? || (StackFits(r.state, r.stack) && r.s.error == NoError)
  {
    var top := stack[|stack| - 1];
    var below := stack[..|stack| - 1];
    var count := if src.MemberValue? || src.Element? then IncSize(top.commas) else top.commas;
    var n := if top.resume.Start? then Finish else top.resume;
    var s' := Emit(cf, s, if InObject(src) then EndObject(count) else EndArray(count));
    if s'.error != NoError then Snapshot(Error, below, s') else Snapshot(n, below, Advance(s'))
  }

  function Transit(cf: Config, src: State, dst: State, stack: seq<Frame>, s: Progress): (r: Snapshot)
    requires StackFits(src, stack) && s.error == NoError && s.rest != []
    requires dst == Predict(src, Tokenize(s.rest[0]))
    ensures r.state.Error? || (StackFits(r.state, r.stack) && r.s.error == NoError && |r.s.rest| < |s.rest|)
  {
    match dst
    case Error => Snapshot(Error, stack, s)
    case ObjectInitial => Open(cf, src, dst, stack, s)
    case ArrayInitial => Open(cf, src, dst, stack, s)
    case MemberKey =>
      var s' := ParseString(cf, s, true);
      Snapshot(if s'.error != NoError then Error else dst, stack, s')
    case KeyValueDelimiter =>
      Snapshot(dst, stack, Advance(s))
    case MemberValue =>
      var s' := ParseValue(cf, s);
      Snapshot(if s'.error != NoError then Error else dst, stack, s')
    case Element =>
      var s' := ParseValue(cf, s);
      Snapshot(if s'.error != NoError then Error else dst, stack, s')
    case SingleValue =>
      var s' := ParseValue(cf, s);
      Snapshot(if s'.error != NoError then Error else Finish, stack, s')
    case MemberDelimiter =>
      var top := stack[|stack| - 1];
      Snapshot(dst, stack[..|stack| - 1] + [top.(commas := IncSize(top.commas))], Advance(s))
    case ElementDelimiter =>
      var top := stack[|stack| - 1];
      Snapshot(dst, stack[..|stack| - 1] + [top.(commas := IncSize(top.commas))], Advance(s))
    case ObjectFinish => Close(cf, src, stack, s)
    case ArrayFinish => Close(cf, src, stack, s)
  }

  /** HandleError: the code for a state that has no move, unless one was recorded already. */
  function HandleError(src: State, s: Progress): (r: Progress)
    ensures r.error != NoError && r.events == s.events
  {
    if s.error != NoError then s else
      Fail(s, match src
              case Start => DocumentEmpty
              case Finish => DocumentRootNotSingular
              case ObjectInitial => ObjectMissName
              case MemberDelimiter => ObjectMissName
              case MemberKey => ObjectMissColon
              case MemberValue => ObjectMissCommaOrCurlyBracket
              case Element => ArrayMissCommaOrSquareBracket
              case _ => UnspecificSyntaxError)
  }

  /** The loop of IterativeParse, with whitespace already skipped, and what follows it. */
  function Run(cf: Config, q: State, stack: seq<Frame>, s: Progress): Progress
    requires StackFits(q, stack) && !q.Error? && s.error == NoError
    decreases |s.rest|
  {
    if Peek(s.rest) == 0 then
      if q.Finish? then s else HandleError(q, s)
    else
      var c := Transit(cf, q, Predict(q, Tokenize(s.rest[0])), stack, s);
      if c.state.Error? then HandleError(q, c.s)
      else if cf.stopWhenDone && c.state.Finish? then c.s
      else Run(cf, c.state, c.stack, Skip(c.s))
  }

  function ParseIterative(cf: Config, text: bytes): Progress {
    Run(cf, Start, [], Skip(Progress(text, [], NoError)))
  }
}
