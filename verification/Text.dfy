/** The JSON text of a value: compact, or laid out with any indentation; in UTF-8, or in ASCII with escapes. */
module Text {
  import opened Streams
  import opened Events
  import opened Dom
  import opened Numbers
  import Quoting

  /** A Writer's style, or a PrettyWriter's with its indentation. */
  datatype Style = Style(ascii: bool, pretty: bool, indentChar: byte, indentCount: nat)

  predicate ValidStyle(st: Style) {
    IsSpace(st.indentChar)
  }

  function Repeat(c: byte, n: nat): (s: bytes)
    ensures |s| == n && forall i | 0 <= i < n :: s[i] == c
  {
    seq(n, i => c)
  }

  /** A new line and its indentation, when pretty. */
  function NewLine(st: Style, depth: nat): bytes {
    if st.pretty then [0x0A] + Repeat(st.indentChar, depth * st.indentCount) else []
  }

  function AfterColon(st: Style): bytes {
    if st.pretty then [0x20] else []
  }

  /** What stands before the item with index `k`. */
  function Between(st: Style, k: nat, depth: nat): bytes {
    (if k > 0 then [COMMA] else []) + NewLine(st, depth)
  }

  /** What stands before the bracket that closes `n` items. */
  function LastLine(st: Style, n: nat, depth: nat): bytes {
    if n == 0 then [] else NewLine(st, depth)
  }

  const NULL: bytes := [0x6E, 0x75, 0x6C, 0x6C]
  const TRUE: bytes := [0x74, 0x72, 0x75, 0x65]
  const FALSE: bytes := [0x66, 0x61, 0x6C, 0x73, 0x65]

  function Quoted(st: Style, s: bytes): bytes {
    Quoting.WriteString(st.ascii, s).text
  }

  /** Whether every string and every name of a value has a property. */
  predicate Strings(v: Value, p: bytes -> bool) {
    match v
    case StringValue(text) => p(text)
    case ArrayValue(es) => forall i | 0 <= i < |es| :: Strings(es[i], p)
    case ObjectValue(ms) => forall i | 0 <= i < |ms| :: p(ms[i].name) && Strings(ms[i].value, p)
    case _ => true
  }

  predicate NoDoubles(v: Value) {
    match v
    case DoubleValue(_) => false
    case ArrayValue(es) => forall i | 0 <= i < |es| :: NoDoubles(es[i])
    case ObjectValue(ms) => forall i | 0 <= i < |ms| :: NoDoubles(ms[i].value)
    case _ => true
  }

  /** The text of a value `depth` brackets deep. */
  function TextOf(st: Style, v: Value, depth: nat): bytes
    requires NoDoubles(v)
    decreases v, Width(v) + 1
  {
    match v
    case NullValue => NULL
    case BoolValue(b) => if b then TRUE else FALSE
    case StringValue(text) => Quoted(st, text)
    case NumberValue(n, _) => DecimalInt(n)
    case ArrayValue(es) => [LBRACKET] + ElementsText(st, v, 0, depth) + LastLine(st, |es|, depth) + [RBRACKET]
    case ObjectValue(ms) => [LCURLY] + MembersText(st, v, 0, depth) + LastLine(st, |ms|, depth) + [RCURLY]
  }

  /** The text of the elements from `k` on, separators included. */
  function ElementsText(st: Style, v: Value, k: nat, depth: nat): bytes
    requires v.ArrayValue? && NoDoubles(v) && k <= |v.elements|
    decreases v, |v.elements| - k
  {
    if k == |v.elements| then [] else
      Between(st, k, depth + 1) + TextOf(st, v.elements[k], depth + 1) + ElementsText(st, v, k + 1, depth)
  }

  /** The text of the members from `k` on, separators included. */
  function MembersText(st: Style, v: Value, k: nat, depth: nat): bytes
    requires v.ObjectValue? && NoDoubles(v) && k <= |v.members|
    decreases v, |v.members| - k
  {
    if k == |v.members| then [] else
      var m := v.members[k];
      Between(st, k, depth + 1) + Quoted(st, m.name) + ([COLON] + AfterColon(st)) + TextOf(st, m.value, depth + 1)
      + MembersText(st, v, k + 1, depth)
  }

  lemma NewLineIsSpace(st: Style, depth: nat)
    requires ValidStyle(st)
    ensures AllSpace(NewLine(st, depth)) && AllSpace(AfterColon(st))
  {
  }

  /** The bytes a value's text can begin with. */
  predicate StartsValue(c: byte) {
    c in {0x6E, 0x74, 0x66, QUOTE, LBRACKET, LCURLY, MINUS} || IsDigit(c)
  }

  lemma TextStarts(st: Style, v: Value, depth: nat)
    requires NoDoubles(v)
    ensures TextOf(st, v, depth) != [] && StartsValue(TextOf(st, v, depth)[0])
  {
    hide ElementsText, MembersText;
  }
}
