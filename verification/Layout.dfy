/** What PrettyWriter adds to the text of a Writer: line breaks, indentation and the space behind a colon, as a program
    that knows nothing of values would put them into the compact text (prettywriter.h). */
module Layout {
  import opened Streams
  import opened Events
  import opened Dom
  import opened Text
  import Quoting
  import RoundTrip
  import Utf8

  // ---------------------------------------------------------------- laying out a compact text

  predicate IsOpening(c: byte) {
    c == LBRACKET || c == LCURLY
  }

  predicate IsClosing(c: byte) {
    c == RBRACKET || c == RCURLY
  }

  /** A line feed and `n` indentation characters for every bracket that is open. */
  function LineBreak(c: byte, n: nat, depth: nat): bytes {
    [0x0A] + seq(depth * n, _ => c)
  }

  /** The layout of a compact text, from outside a string inside `depth` brackets: a line break after an opening bracket,
      after a comma and before a closing one, but nothing within empty brackets, and a space behind a colon. */
  function Laid(c: byte, n: nat, s: bytes, depth: nat): bytes
    decreases |s|
  {
    if s == [] then []
    else if s[0] == QUOTE then [QUOTE] + LaidString(c, n, s[1..], depth)
    else if IsOpening(s[0]) then
      if |s| > 1 && IsClosing(s[1]) then [s[0], s[1]] + Laid(c, n, s[2..], depth)
      else [s[0]] + (LineBreak(c, n, depth + 1) + Laid(c, n, s[1..], depth + 1))
    else if IsClosing(s[0]) then
      var outer := if depth == 0 then 0 else depth - 1;
      LineBreak(c, n, outer) + ([s[0]] + Laid(c, n, s[1..], outer))
    else if s[0] == COMMA then [COMMA] + (LineBreak(c, n, depth) + Laid(c, n, s[1..], depth))
    else if s[0] == COLON then [COLON, 0x20] + Laid(c, n, s[1..], depth)
    else [s[0]] + Laid(c, n, s[1..], depth)
  }

  /** From inside a string: nothing is added up to the quotation mark that ends it. */
  function LaidString(c: byte, n: nat, s: bytes, depth: nat): bytes
    decreases |s|
  {
    if s == [] then []
    else if s[0] == BACKSLASH && |s| > 1 then s[..2] + LaidString(c, n, s[2..], depth)
    else if s[0] == QUOTE then [QUOTE] + Laid(c, n, s[1..], depth)
    else [s[0]] + LaidString(c, n, s[1..], depth)
  }

  /** Whether there is no whitespace outside of strings. */
  predicate Tight(s: bytes)
    decreases |s|
  {
    s == [] || (if s[0] == QUOTE then TightString(s[1..]) else s[0] !in {0x20, 0x09, 0x0A, 0x0D} && Tight(s[1..]))
  }

  predicate TightString(s: bytes)
    decreases |s|
  {
    s == [] || (
      if s[0] == BACKSLASH && |s| > 1 then TightString(s[2..])
      else if s[0] == QUOTE then Tight(s[1..])
      else TightString(s[1..]))
  }

  // ---------------------------------------------------------------- strings

  /** Bytes that neither end a string nor escape anything. */
  predicate AllPlain(s: bytes) {
    forall i | 0 <= i < |s| :: s[i] != QUOTE && s[i] != BACKSLASH
  }

  lemma {:induction false} LaidPlain(c: byte, n: nat, s: bytes, post: bytes, depth: nat)
    requires AllPlain(s)
    ensures LaidString(c, n, s + post, depth) == s + LaidString(c, n, post, depth)
    ensures TightString(s + post) == TightString(post)
    decreases |s|
  {
    if s == [] {
      assert s + post == post;
    } else {
      assert (s + post)[0] == s[0] && (s + post)[1..] == s[1..] + post;
      LaidPlain(c, n, s[1..], post, depth);
      assert s == [s[0]] + s[1..];
      Associate([s[0]], s[1..], LaidString(c, n, post, depth));
    }
  }

  lemma LaidEscape(c: byte, n: nat, e: byte, tail: bytes, post: bytes, depth: nat)
    requires AllPlain(tail)
    ensures LaidString(c, n, [BACKSLASH, e] + tail + post, depth) == [BACKSLASH, e] + tail + LaidString(c, n, post, depth)
    ensures TightString([BACKSLASH, e] + tail + post) == TightString(post)
  {
    var s := [BACKSLASH, e] + tail + post;
    assert s[..2] == [BACKSLASH, e] && s[2..] == tail + post;
    LaidPlain(c, n, tail, post, depth);
    Associate([BACKSLASH, e], tail, LaidString(c, n, post, depth));
  }

  lemma LaidByte(c: byte, n: nat, b: byte, post: bytes, depth: nat)
    ensures var e := Quoting.EscapeByte(b);
            LaidString(c, n, e + post, depth) == e + LaidString(c, n, post, depth) && TightString(e + post) == TightString(post)
  {
    hide LaidString, TightString;
    var e := Quoting.EscapeByte(b);
    if |e| == 1 {
      LaidPlain(c, n, e, post, depth);
    } else {
      assert e == [BACKSLASH, e[1]] + e[2..];
      LaidEscape(c, n, e[1], e[2..], post, depth);
    }
  }

  lemma LaidUnicode(c: byte, n: nat, codepoint: nat, post: bytes, depth: nat)
    requires Utf8.IsScalar(codepoint)
    ensures var e := Quoting.UnicodeEscape(codepoint);
            LaidString(c, n, e + post, depth) == e + LaidString(c, n, post, depth) && TightString(e + post) == TightString(post)
  {
    hide LaidString, TightString;
    if codepoint <= 0xFFFF {
      LaidEscape(c, n, 0x75, Quoting.Hex4(codepoint), post, depth);
    } else {
      var s := codepoint - 0x10000;
      LaidPair(c, n, Quoting.Hex4(s / 0x400 + 0xD800), Quoting.Hex4(s % 0x400 + 0xDC00), post, depth);
    }
  }

  lemma LaidPair(c: byte, n: nat, high: bytes, low: bytes, post: bytes, depth: nat)
    requires AllPlain(high) && AllPlain(low)
    ensures var e := [BACKSLASH, 0x75] + high + [BACKSLASH, 0x75] + low;
            LaidString(c, n, e + post, depth) == e + LaidString(c, n, post, depth) && TightString(e + post) == TightString(post)
  {
    hide LaidString, TightString;
    var first, second := [BACKSLASH, 0x75] + high, [BACKSLASH, 0x75] + low;
    Associate(first, [BACKSLASH, 0x75], low);
    Associate(first, second, post);
    LaidEscape(c, n, 0x75, low, post, depth);
    LaidEscape(c, n, 0x75, high, second + post, depth);
    Associate(first, second, LaidString(c, n, post, depth));
  }

  lemma {:induction false} LaidBody(c: byte, n: nat, ascii: bool, s: bytes, post: bytes, depth: nat)
    ensures var text := Quoting.WriteBody(ascii, s).text;
            LaidString(c, n, text + post, depth) == text + LaidString(c, n, post, depth)
            && TightString(text + post) == TightString(post)
    decreases |s|
  {
    hide LaidString, TightString, Quoting.EscapeByte, Quoting.UnicodeEscape, Utf8.DecodeOne;
    var text := Quoting.WriteBody(ascii, s).text;
    if s == [] || (ascii && s[0] >= 0x80 && !Utf8.DecodeOne(s).ok) {
      assert text + post == post && text + LaidString(c, n, post, depth) == LaidString(c, n, post, depth);
    } else if ascii && s[0] >= 0x80 {
      var d := Utf8.DecodeOne(s);
      var k := Quoting.AcceptedLength(s);
      var e, rest := Quoting.UnicodeEscape(d.codepoint), Quoting.WriteBody(ascii, d.rest).text;
      LaidBody(c, n, ascii, d.rest, post, depth);
      Associate(e, rest, post);
      LaidUnicode(c, n, d.codepoint, rest + post, depth);
      Associate(e, rest, LaidString(c, n, post, depth));
    } else {
      var e, rest := Quoting.EscapeByte(s[0]), Quoting.WriteBody(ascii, s[1..]).text;
      LaidBody(c, n, ascii, s[1..], post, depth);
      Associate(e, rest, post);
      LaidByte(c, n, s[0], rest + post, depth);
      Associate(e, rest, LaidString(c, n, post, depth));
    }
  }

  lemma LaidQuoted(c: byte, n: nat, st: Style, s: bytes, post: bytes, depth: nat)
    ensures Laid(c, n, Quoted(st, s) + post, depth) == Quoted(st, s) + Laid(c, n, post, depth)
    ensures Tight(Quoted(st, s) + post) == Tight(post)
  {
    hide Quoting.WriteBody, Laid, LaidString, Tight, TightString, Quoted;
    var text := Quoting.WriteBody(st.ascii, s).text;
    QuotedIs(st, s, post);
    QuotedIs(st, s, Laid(c, n, post, depth));
    AtQuote(c, n, text + ([QUOTE] + post), depth);
    AtQuote(c, n, post, depth);
    LaidBody(c, n, st.ascii, s, [QUOTE] + post, depth);
  }

  lemma QuotedIs(st: Style, s: bytes, post: bytes)
    ensures Quoted(st, s) + post == [QUOTE] + (Quoting.WriteBody(st.ascii, s).text + ([QUOTE] + post))
  {
    hide Quoting.WriteBody;
    var text := Quoting.WriteBody(st.ascii, s).text;
    Associate([QUOTE] + text, [QUOTE], post);
    Associate([QUOTE], text, [QUOTE] + post);
  }

  lemma AtQuote(c: byte, n: nat, post: bytes, depth: nat)
    ensures Laid(c, n, [QUOTE] + post, depth) == [QUOTE] + LaidString(c, n, post, depth)
    ensures LaidString(c, n, [QUOTE] + post, depth) == [QUOTE] + Laid(c, n, post, depth)
    ensures Tight([QUOTE] + post) == TightString(post) && TightString([QUOTE] + post) == Tight(post)
  {
    assert ([QUOTE] + post)[1..] == post;
  }

  // ---------------------------------------------------------------- values

  /** Bytes outside of strings that stay as they are. */
  predicate AllStay(s: bytes) {
    forall i | 0 <= i < |s| ::
      s[i] !in {QUOTE, LBRACKET, LCURLY, RBRACKET, RCURLY, COMMA, COLON, 0x20, 0x09, 0x0A, 0x0D}
  }

  lemma {:induction false} LaidStays(c: byte, n: nat, s: bytes, post: bytes, depth: nat)
    requires AllStay(s)
    ensures Laid(c, n, s + post, depth) == s + Laid(c, n, post, depth)
    ensures Tight(s + post) == Tight(post)
    decreases |s|
  {
    if s == [] {
      assert s + post == post;
    } else {
      assert (s + post)[0] == s[0] && (s + post)[1..] == s[1..] + post;
      LaidStays(c, n, s[1..], post, depth);
      assert s == [s[0]] + s[1..];
      Associate([s[0]], s[1..], Laid(c, n, post, depth));
    }
  }

  function Compact(st: Style): Style {
    st.(pretty := false)
  }

  function Pretty(st: Style): Style {
    st.(pretty := true)
  }

  lemma ScalarStays(st: Style, v: Value, depth: nat)
    requires v.NullValue? || v.BoolValue? || v.NumberValue?
    ensures AllStay(TextOf(Compact(st), v, 0)) && TextOf(Compact(st), v, 0) == TextOf(Pretty(st), v, depth)
  {
  }

  lemma OneByte(c: byte, n: nat, b: byte, post: bytes, depth: nat)
    requires !IsClosing(Peek(post)) || !IsOpening(b)
    ensures var s := [b] + post;
            && (IsOpening(b) ==>
                  Laid(c, n, s, depth) == [b] + (LineBreak(c, n, depth + 1) + Laid(c, n, post, depth + 1)))
            && (b == COMMA ==> Laid(c, n, s, depth) == [b] + (LineBreak(c, n, depth) + Laid(c, n, post, depth)))
            && (b == COLON ==> Laid(c, n, s, depth) == [COLON, 0x20] + Laid(c, n, post, depth))
            && (IsClosing(b) && depth > 0 ==>
                  Laid(c, n, s, depth) == LineBreak(c, n, depth - 1) + ([b] + Laid(c, n, post, depth - 1)))
            && (b in {LBRACKET, LCURLY, RBRACKET, RCURLY, COMMA, COLON} ==> Tight(s) == Tight(post))
  {
    assert ([b] + post)[1..] == post;
  }

  lemma EmptyBrackets(c: byte, n: nat, a: byte, b: byte, post: bytes, depth: nat)
    requires IsOpening(a) && IsClosing(b)
    ensures Laid(c, n, [a, b] + post, depth) == [a, b] + Laid(c, n, post, depth) && Tight([a, b] + post) == Tight(post)
  {
    var s := [a, b] + post;
    assert s[1..] == [b] + post && s[2..] == post && s[1..][1..] == post;
  }

  lemma BreakIs(st: Style, depth: nat)
    ensures NewLine(Pretty(st), depth) == LineBreak(st.indentChar, st.indentCount, depth)
    ensures NewLine(Compact(st), depth) == [] && AfterColon(Pretty(st)) == [0x20] && AfterColon(Compact(st)) == []
  {
  }

  lemma {:induction false} LaidValue(st: Style, v: Value, depth: nat, k: nat, post: bytes)
    requires NoDoubles(v)
    ensures var text := TextOf(Compact(st), v, k);
            && Laid(st.indentChar, st.indentCount, text + post, depth)
               == TextOf(Pretty(st), v, depth) + Laid(st.indentChar, st.indentCount, post, depth)
            && Tight(text + post) == Tight(post) && text != [] && !IsClosing(text[0])
    decreases v, Width(v) + 1
  {
    hide Laid, Tight, Quoted, ElementsText, MembersText, LineBreak;
    var c, n := st.indentChar, st.indentCount;
    match v
    case StringValue(s) =>
      LaidQuoted(c, n, st, s, post, depth);
      QuotedAlike(st, s);
    case ArrayValue(_) => LaidArray(st, v, depth, k, post);
    case ObjectValue(_) => LaidObject(st, v, depth, k, post);
    case NullValue => LaidScalar(st, v, depth, k, post);
    case BoolValue(_) => LaidScalar(st, v, depth, k, post);
    case NumberValue(_, _) => LaidScalar(st, v, depth, k, post);
  }

  lemma LaidScalar(st: Style, v: Value, depth: nat, k: nat, post: bytes)
    requires v.NullValue? || v.BoolValue? || v.NumberValue?
    ensures var text := TextOf(Compact(st), v, k);
            && Laid(st.indentChar, st.indentCount, text + post, depth)
               == TextOf(Pretty(st), v, depth) + Laid(st.indentChar, st.indentCount, post, depth)
            && Tight(text + post) == Tight(post) && text != [] && !IsClosing(text[0])
  {
    hide Laid, Tight;
    ScalarStays(st, v, depth);
    LaidStays(st.indentChar, st.indentCount, TextOf(Compact(st), v, k), post, depth);
  }

  lemma QuotedAlike(st: Style, s: bytes)
    ensures Quoted(Compact(st), s) == Quoted(Pretty(st), s) == Quoted(st, s)
    ensures Quoted(st, s) != [] && Quoted(st, s)[0] == QUOTE
  {
  }

  lemma {:induction false} LaidArray(st: Style, v: Value, depth: nat, k: nat, post: bytes)
    requires v.ArrayValue? && NoDoubles(v)
    ensures var text := TextOf(Compact(st), v, k);
            && Laid(st.indentChar, st.indentCount, text + post, depth)
               == TextOf(Pretty(st), v, depth) + Laid(st.indentChar, st.indentCount, post, depth)
            && Tight(text + post) == Tight(post) && text != [] && text[0] == LBRACKET
    decreases v, Width(v), 1
  {
    hide Laid, Tight, ElementsText, LineBreak;
    var c, n := st.indentChar, st.indentCount;
    var inner := ElementsText(Compact(st), v, 0, k);
    var laid := Laid(c, n, post, depth);
    BreakIs(st, depth);
    if v.elements == [] {
      NoElementText(st, v, depth, k);
      EmptyBrackets(c, n, LBRACKET, RBRACKET, post, depth);
    } else {
      var tail := inner + ([RBRACKET] + post);
      ArrayTexts(st, v, depth, k, post, laid);
      LaidElements(st, v, 0, depth, k, post);
      OneByte(c, n, LBRACKET, tail, depth);
    }
  }

  lemma NoElementText(st: Style, v: Value, depth: nat, k: nat)
    requires (v.ArrayValue? && v.elements == []) || (v.ObjectValue? && v.members == [])
    ensures NoDoubles(v)
    ensures TextOf(Compact(st), v, k) == TextOf(Pretty(st), v, depth)
            == if v.ArrayValue? then [LBRACKET, RBRACKET] else [LCURLY, RCURLY]
  {
  }

  lemma ArrayTexts(st: Style, v: Value, depth: nat, k: nat, post: bytes, laid: bytes)
    requires v.ArrayValue? && NoDoubles(v) && v.elements != []
    ensures TextOf(Compact(st), v, k) + post == [LBRACKET] + (ElementsText(Compact(st), v, 0, k) + ([RBRACKET] + post))
    ensures TextOf(Pretty(st), v, depth) + laid
            == [LBRACKET] + (ElementsText(Pretty(st), v, 0, depth)
                             + (LineBreak(st.indentChar, st.indentCount, depth) + ([RBRACKET] + laid)))
    ensures TextOf(Compact(st), v, k) != [] && TextOf(Compact(st), v, k)[0] == LBRACKET
  {
    hide ElementsText, NewLine, LineBreak;
    BreakIs(st, depth);
    BreakIs(st, k);
    Flat(LBRACKET, ElementsText(Compact(st), v, 0, k), [], RBRACKET, post);
    Flat(LBRACKET, ElementsText(Pretty(st), v, 0, depth), LineBreak(st.indentChar, st.indentCount, depth), RBRACKET, laid);
  }

  lemma Flat(a: byte, inner: bytes, line: bytes, b: byte, post: bytes)
    ensures [a] + inner + line + [b] + post == [a] + (inner + (line + ([b] + post)))
    ensures line == [] ==> [a] + inner + line + [b] + post == [a] + (inner + ([b] + post))
  {
  }

  /** The elements from `k` on and the bracket behind them: where the compact text has a comma, or the opening bracket,
      there is a line break in front of the element. */
  lemma {:induction false} LaidElements(st: Style, v: Value, i: nat, depth: nat, k: nat, post: bytes)
    requires v.ArrayValue? && NoDoubles(v) && i <= |v.elements|
    ensures var c, n := st.indentChar, st.indentCount;
            var compact := ElementsText(Compact(st), v, i, k) + ([RBRACKET] + post);
            var pretty := ElementsText(Pretty(st), v, i, depth) + (LineBreak(c, n, depth) + ([RBRACKET] + Laid(c, n, post, depth)));
            && Tight(compact) == Tight(post) && compact != []
            && (i > 0 ==> Laid(c, n, compact, depth + 1) == pretty)
            && (i == 0 < |v.elements| ==>
                  !IsClosing(compact[0]) && LineBreak(c, n, depth + 1) + Laid(c, n, compact, depth + 1) == pretty)
    decreases v, |v.elements| - i, 0
  {
    hide Laid, Tight, TextOf, LineBreak, NewLine;
    var c, n := st.indentChar, st.indentCount;
    var laid := Laid(c, n, post, depth);
    if i == |v.elements| {
      OneByte(c, n, RBRACKET, post, depth + 1);
      assert [] + ([RBRACKET] + post) == [RBRACKET] + post;
      assert [] + (LineBreak(c, n, depth) + ([RBRACKET] + laid)) == LineBreak(c, n, depth) + ([RBRACKET] + laid);
    } else {
      var e := v.elements[i];
      var tail := ElementsText(Compact(st), v, i + 1, k) + ([RBRACKET] + post);
      BreakIs(st, depth + 1);
      BreakIs(st, k + 1);
      LaidElements(st, v, i + 1, depth, k, post);
      LaidValue(st, e, depth + 1, k + 1, tail);
      var text := TextOf(Compact(st), e, k + 1);
      OneByte(c, n, COMMA, text + tail, depth + 1);
      Flatter(if i > 0 then [COMMA] else [], [], text, ElementsText(Compact(st), v, i + 1, k), [RBRACKET] + post);
      Flatter(if i > 0 then [COMMA] else [], LineBreak(c, n, depth + 1), TextOf(Pretty(st), e, depth + 1),
              ElementsText(Pretty(st), v, i + 1, depth), LineBreak(c, n, depth) + ([RBRACKET] + laid));
    }
  }

  lemma Flatter(comma: bytes, line: bytes, text: bytes, others: bytes, post: bytes)
    ensures comma + line + text + others + post == comma + (line + (text + (others + post)))
    ensures line == [] ==> comma + line + text + others + post == comma + (text + (others + post))
    ensures [] + (line + (text + (others + post))) == line + (text + (others + post))
    ensures [] + (text + (others + post)) == text + (others + post)
  {
    Associate(comma + line + text, others, post);
    Associate(comma + line, text, others + post);
    Associate(comma, line, text + (others + post));
  }

  lemma {:induction false} LaidObject(st: Style, v: Value, depth: nat, k: nat, post: bytes)
    requires v.ObjectValue? && NoDoubles(v)
    ensures var text := TextOf(Compact(st), v, k);
            && Laid(st.indentChar, st.indentCount, text + post, depth)
               == TextOf(Pretty(st), v, depth) + Laid(st.indentChar, st.indentCount, post, depth)
            && Tight(text + post) == Tight(post) && text != [] && text[0] == LCURLY
    decreases v, Width(v), 1
  {
    hide Laid, Tight, MembersText, LineBreak;
    var c, n := st.indentChar, st.indentCount;
    var laid := Laid(c, n, post, depth);
    BreakIs(st, depth);
    if v.members == [] {
      NoElementText(st, v, depth, k);
      EmptyBrackets(c, n, LCURLY, RCURLY, post, depth);
    } else {
      var tail := MembersText(Compact(st), v, 0, k) + ([RCURLY] + post);
      ObjectTexts(st, v, depth, k, post, laid);
      LaidMembers(st, v, 0, depth, k, post);
      OneByte(c, n, LCURLY, tail, depth);
    }
  }

  lemma ObjectTexts(st: Style, v: Value, depth: nat, k: nat, post: bytes, laid: bytes)
    requires v.ObjectValue? && NoDoubles(v) && v.members != []
    ensures TextOf(Compact(st), v, k) + post == [LCURLY] + (MembersText(Compact(st), v, 0, k) + ([RCURLY] + post))
    ensures TextOf(Pretty(st), v, depth) + laid
            == [LCURLY] + (MembersText(Pretty(st), v, 0, depth)
                           + (LineBreak(st.indentChar, st.indentCount, depth) + ([RCURLY] + laid)))
    ensures TextOf(Compact(st), v, k) != [] && TextOf(Compact(st), v, k)[0] == LCURLY
  {
    hide MembersText, NewLine, LineBreak;
    BreakIs(st, depth);
    BreakIs(st, k);
    Flat(LCURLY, MembersText(Compact(st), v, 0, k), [], RCURLY, post);
    Flat(LCURLY, MembersText(Pretty(st), v, 0, depth), LineBreak(st.indentChar, st.indentCount, depth), RCURLY, laid);
  }

  lemma {:induction false} LaidMembers(st: Style, v: Value, i: nat, depth: nat, k: nat, post: bytes)
    requires v.ObjectValue? && NoDoubles(v) && i <= |v.members|
    ensures var c, n := st.indentChar, st.indentCount;
            var compact := MembersText(Compact(st), v, i, k) + ([RCURLY] + post);
            var pretty := MembersText(Pretty(st), v, i, depth) + (LineBreak(c, n, depth) + ([RCURLY] + Laid(c, n, post, depth)));
            && Tight(compact) == Tight(post) && compact != []
            && (i > 0 ==> Laid(c, n, compact, depth + 1) == pretty)
            && (i == 0 < |v.members| ==>
                  !IsClosing(compact[0]) && LineBreak(c, n, depth + 1) + Laid(c, n, compact, depth + 1) == pretty)
    decreases v, |v.members| - i, 0
  {
    hide Laid, Tight, TextOf, LineBreak, NewLine, Quoted, AfterColon, MembersText;
    var c, n := st.indentChar, st.indentCount;
    var laid := Laid(c, n, post, depth);
    if i == |v.members| {
      NoMembersText(st, v, depth, k);
      OneByte(c, n, RCURLY, post, depth + 1);
      assert [] + ([RCURLY] + post) == [RCURLY] + post;
      assert [] + (LineBreak(c, n, depth) + ([RCURLY] + laid)) == LineBreak(c, n, depth) + ([RCURLY] + laid);
    } else {
      var m := v.members[i];
      var tail := MembersText(Compact(st), v, i + 1, k) + ([RCURLY] + post);
      BreakIs(st, depth + 1);
      BreakIs(st, k + 1);
      QuotedAlike(st, m.name);
      LaidMembers(st, v, i + 1, depth, k, post);
      LaidMember(st, m, depth + 1, k + 1, tail);
      var text := Quoted(st, m.name) + ([COLON] + TextOf(Compact(st), m.value, k + 1));
      OneByte(c, n, COMMA, text + tail, depth + 1);
      MembersTextIs(Compact(st), v, i, k, [RCURLY] + post);
      MembersTextIs(Pretty(st), v, i, depth, LineBreak(c, n, depth) + ([RCURLY] + laid));
      Nothing(text + tail, []);
      Nothing(Quoted(st, m.name) + ([COLON, 0x20] + TextOf(Pretty(st), m.value, depth + 1)) + Laid(c, n, tail, depth + 1),
              LineBreak(c, n, depth + 1));
      assert [COLON] + [] == [COLON] && [COLON] + [0x20] == [COLON, 0x20];
    }
  }

  lemma NoMembersText(st: Style, v: Value, depth: nat, k: nat)
    requires v.ObjectValue? && NoDoubles(v)
    ensures MembersText(Compact(st), v, |v.members|, k) == [] && MembersText(Pretty(st), v, |v.members|, depth) == []
  {
  }

  lemma Nothing(a: bytes, line: bytes)
    ensures [] + a == a && [] + (line + a) == line + a
  {
  }

  lemma MembersTextIs(st: Style, v: Value, i: nat, depth: nat, rest: bytes)
    requires v.ObjectValue? && NoDoubles(v) && i < |v.members|
    ensures var m := v.members[i];
            MembersText(st, v, i, depth) + rest
            == (if i > 0 then [COMMA] else [])
               + (NewLine(st, depth + 1) + (Quoted(st, m.name) + (([COLON] + AfterColon(st)) + TextOf(st, m.value, depth + 1))
                                            + (MembersText(st, v, i + 1, depth) + rest)))
  {
    hide TextOf, NewLine, Quoted, AfterColon;
    var m := v.members[i];
    MemberParts(if i > 0 then [COMMA] else [], NewLine(st, depth + 1), Quoted(st, m.name), [COLON] + AfterColon(st),
                TextOf(st, m.value, depth + 1), MembersText(st, v, i + 1, depth), rest);
  }

  lemma MemberParts(comma: bytes, line: bytes, name: bytes, colon: bytes, value: bytes, others: bytes, post: bytes)
    ensures comma + line + name + colon + value + others + post == comma + (line + (name + (colon + value) + (others + post)))
    ensures line == [] ==>
              comma + line + name + colon + value + others + post == comma + (name + (colon + value) + (others + post))
    ensures [] + (line + (name + (colon + value) + (others + post))) == line + (name + (colon + value) + (others + post))
    ensures [] + (name + (colon + value) + (others + post)) == name + (colon + value) + (others + post)
  {
    Associate(comma + line + name, colon, value);
    Associate(comma + line + name + colon + value, others, post);
    Associate(comma + line, name, colon + value);
    Associate(comma + line, name + (colon + value), others + post);
    Associate(comma, line, name + (colon + value) + (others + post));
  }

  lemma {:induction false} LaidMember(st: Style, m: Member, depth: nat, k: nat, tail: bytes)
    requires NoDoubles(m.value)
    ensures var c, n := st.indentChar, st.indentCount;
            var text := Quoted(st, m.name) + ([COLON] + TextOf(Compact(st), m.value, k));
            && Laid(c, n, text + tail, depth)
               == Quoted(st, m.name) + ([COLON, 0x20] + TextOf(Pretty(st), m.value, depth)) + Laid(c, n, tail, depth)
            && Tight(text + tail) == Tight(tail) && text != [] && text[0] == QUOTE
    decreases m.value, Width(m.value) + 2
  {
    hide Laid, Tight, TextOf, Quoted;
    var c, n := st.indentChar, st.indentCount;
    var name, value := Quoted(st, m.name), TextOf(Compact(st), m.value, k);
    var pretty, laid := TextOf(Pretty(st), m.value, depth), Laid(c, n, tail, depth);
    QuotedAlike(st, m.name);
    Associate(name, [COLON] + value, tail);
    Associate([COLON], value, tail);
    LaidQuoted(c, n, st, m.name, [COLON] + (value + tail), depth);
    OneByte(c, n, COLON, value + tail, depth);
    LaidValue(st, m.value, depth, k, tail);
    Associate([COLON, 0x20], pretty, laid);
    Associate(name, [COLON, 0x20] + pretty, laid);
  }

  // ---------------------------------------------------------------- the theorem

  /** What PrettyWriter writes is the layout of what Writer writes, which has no whitespace outside of strings. */
  lemma PrettyIsLaidOut(cf: Config, st: Style, v: Value)
    requires RoundTrip.Survives(cf, st, v)
    ensures var compact, pretty := RoundTrip.Print(Compact(st), v), RoundTrip.Print(Pretty(st), v);
            compact.1 && pretty.1 && Tight(compact.0) && pretty.0 == Laid(st.indentChar, st.indentCount, compact.0, 0)
  {
    hide TextOf, RoundTrip.Print;
    RoundTrip.PrintsText(cf, Compact(st), v);
    RoundTrip.PrintsText(cf, Pretty(st), v);
    LaidValue(st, v, 0, 0, []);
    assert TextOf(Compact(st), v, 0) + [] == TextOf(Compact(st), v, 0);
    assert TextOf(Pretty(st), v, 0) + [] == TextOf(Pretty(st), v, 0);
  }
}
