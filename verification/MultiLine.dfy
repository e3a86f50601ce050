/** Multi-line values of an INI file: written line by line, and read back by a loader that closes the gaps in its own
    buffer while it looks for the end tag (server/include/SimpleIni.h). */
module MultiLine {
  const NUL := 0
  const LF := 10
  const CR := 13

  type Text = seq<int>

  predicate NoNul(t: Text) {
    NUL !in t
  }

  predicate IsNewLineChar(c: int) {
    c == LF || c == CR
  }

  // ---------------------------------------------------------------- the comparators

  /** locase of SI_GenericNoCase; SI_GenericCase compares as it stands. */
  function Fold(caseless: bool, c: int): int {
    if caseless && 'A' as int <= c <= 'Z' as int then c - 'A' as int + 'a' as int else c
  }

  function Folded(caseless: bool, t: Text): Text {
    seq(|t|, i requires 0 <= i < |t| => Fold(caseless, t[i]))
  }

  predicate Less(caseless: bool, a: Text, b: Text) {
    if a == [] || b == [] then b != []
    else if Fold(caseless, a[0]) != Fold(caseless, b[0]) then Fold(caseless, a[0]) < Fold(caseless, b[0])
    else Less(caseless, a[1..], b[1..])
  }

  /** How the loader compares a line with the tag. */
  predicate Matches(caseless: bool, a: Text, b: Text) {
    !Less(caseless, a, b) && !Less(caseless, b, a)
  }

  lemma {:induction false} MatchesIsSame(caseless: bool, a: Text, b: Text)
    ensures Matches(caseless, a, b) <==> Folded(caseless, a) == Folded(caseless, b)
    decreases |a|
  {
    var fa, fb := Folded(caseless, a), Folded(caseless, b);
    if a != [] && b != [] {
      MatchesIsSame(caseless, a[1..], b[1..]);
      assert fa == [fa[0]] + Folded(caseless, a[1..]) && fb == [fb[0]] + Folded(caseless, b[1..]);
      assert fa[1..] == Folded(caseless, a[1..]) && fb[1..] == Folded(caseless, b[1..]);
    } else {
      assert |fa| == |a| && |fb| == |b|;
    }
  }

  const CAPITALS: string := "ABCDEFGHIJKLMNOPQRSTUVWXYZ"
  const SMALLS: string := "abcdefghijklmnopqrstuvwxyz"

  /** Whether two characters are the two cases of one letter of ASCII. */
  predicate SameLetter(c: int, d: int) {
    exists i | 0 <= i < 26 :: c == CAPITALS[i] as int && d == SMALLS[i] as int
  }

  lemma LettersAre(i: nat)
    requires i < 26
    ensures CAPITALS[i] == 'A' + i as char && SMALLS[i] == 'a' + i as char
  {
    if i < 7 {} else if i < 14 {} else if i < 20 {} else {}
  }

  /** What the comparators tell apart: without regard to case all but the two cases of a letter, and otherwise all. */
  lemma FoldIs(caseless: bool, c: int, d: int)
    ensures Fold(caseless, c) == Fold(caseless, d) <==> c == d || (caseless && (SameLetter(c, d) || SameLetter(d, c)))
  {
    forall i | 0 <= i < 26 ensures CAPITALS[i] == 'A' + i as char && SMALLS[i] == 'a' + i as char {
      LettersAre(i);
    }
    if caseless && c != d && Fold(caseless, c) == Fold(caseless, d) {
      var i := if c < d then c - 'A' as int else d - 'A' as int;
      assert 0 <= i < 26 && CAPITALS[i] as int == 'A' as int + i && SMALLS[i] as int == 'a' as int + i;
    }
  }

  /** Whether `b` is the first to go on, or to have a greater character, after `k` that are the same. */
  predicate Precedes(caseless: bool, a: Text, b: Text, k: nat) {
    && k <= |a| && k < |b| && (forall i | 0 <= i < k :: Fold(caseless, a[i]) == Fold(caseless, b[i]))
    && (k == |a| || Fold(caseless, a[k]) < Fold(caseless, b[k]))
  }

  lemma {:induction false} LessIs(caseless: bool, a: Text, b: Text)
    ensures Less(caseless, a, b) <==> exists k: nat :: Precedes(caseless, a, b, k)
    decreases |a|
  {
    if a == [] || b == [] {
      assert b != [] ==> Precedes(caseless, a, b, 0);
    } else if Fold(caseless, a[0]) != Fold(caseless, b[0]) {
      assert Fold(caseless, a[0]) < Fold(caseless, b[0]) ==> Precedes(caseless, a, b, 0);
      assert forall k: nat :: Precedes(caseless, a, b, k) ==> k == 0;
    } else {
      LessIs(caseless, a[1..], b[1..]);
      forall k: nat ensures Precedes(caseless, a[1..], b[1..], k) <==> Precedes(caseless, a, b, k + 1) {
        LaterPrecedes(caseless, a, b, k);
      }
      if Less(caseless, a, b) {
        var k: nat :| Precedes(caseless, a[1..], b[1..], k);
        assert Precedes(caseless, a, b, k + 1);
      } else {
        forall k: nat ensures !Precedes(caseless, a, b, k) {
          assert k > 0 ==> !Precedes(caseless, a[1..], b[1..], k - 1);
        }
      }
    }
  }

  lemma LaterPrecedes(caseless: bool, a: Text, b: Text, k: nat)
    requires a != [] && b != [] && Fold(caseless, a[0]) == Fold(caseless, b[0])
    ensures Precedes(caseless, a[1..], b[1..], k) <==> Precedes(caseless, a, b, k + 1)
  {
    hide Fold;
    var a', b' := a[1..], b[1..];
    if Precedes(caseless, a', b', k) {
      forall i | 0 <= i < k + 1 ensures Fold(caseless, a[i]) == Fold(caseless, b[i]) {
        assert i > 0 ==> a[i] == a'[i - 1] && b[i] == b'[i - 1];
      }
    }
    if Precedes(caseless, a, b, k + 1) {
      assert forall i | 0 <= i < k :: a'[i] == a[i + 1] && b'[i] == b[i + 1];
    }
  }

  /** The comparators order texts, and those that neither comes before the other are the same up to case. */
  lemma {:induction false} LessOrders(caseless: bool, a: Text, b: Text, c: Text)
    ensures !Less(caseless, a, a)
    ensures Less(caseless, a, b) && Less(caseless, b, c) ==> Less(caseless, a, c)
    ensures Matches(caseless, a, b) && Matches(caseless, b, c) ==> Matches(caseless, a, c)
    decreases |a|
  {
    MatchesIsSame(caseless, a, b);
    MatchesIsSame(caseless, b, c);
    MatchesIsSame(caseless, a, c);
    hide Fold, Folded;
    if a != [] {
      LessOrders(caseless, a[1..], if b == [] then [] else b[1..], if c == [] then [] else c[1..]);
    }
  }

  method IsLess(caseless: bool, left: Text, right: Text) returns (less: bool)
    ensures less == Less(caseless, left, right)
  {
    var i := 0;
    while i < |left| && i < |right|
      invariant i <= |left| && i <= |right| && Less(caseless, left, right) == Less(caseless, left[i..], right[i..])
    {
      var cmp := Fold(caseless, left[i]) - Fold(caseless, right[i]);
      if cmp != 0 {
        return cmp < 0;
      }
      assert left[i..][1..] == left[i + 1..] && right[i..][1..] == right[i + 1..];
      i := i + 1;
    }
    return i < |right|;
  }

  // ---------------------------------------------------------------- lines

  /** The characters before the first newline character. */
  function Line(s: Text): (line: Text)
    ensures |line| <= |s| && line == s[..|line|] && (forall c | c in line :: !IsNewLineChar(c))
    ensures |line| < |s| ==> IsNewLineChar(s[|line|])
  {
    if s == [] || IsNewLineChar(s[0]) then [] else [s[0]] + Line(s[1..])
  }

  /** SkipNewLine: what follows a newline, which is LF, CR or both. */
  function SkipNewLine(s: Text): (r: Text)
    requires s != []
    ensures |r| < |s| && r == s[|s| - |r|..]
  {
    if s[0] == CR && |s| > 1 && s[1] == LF then s[2..] else s[1..]
  }

  /** What the loop collects: every line before the tag with an LF behind it, or the rest of the data if there is no
      tag; and the data behind the tag's line. */
  datatype Collected = Collected(text: Text, found: bool, rest: Text)

  function Collect(caseless: bool, s: Text, tag: Text): Collected
    decreases |s|
  {
    var line := Line(s);
    if Matches(caseless, line, tag) then
      Collected([], true, if line == s then [] else SkipNewLine(s[|line|..]))
    else if line == s then Collected(line, false, [])
    else
      var r := Collect(caseless, SkipNewLine(s[|line|..]), tag);
      Collected(line + [LF] + r.text, r.found, r.rest)
  }

  /** What LoadMultiLineText makes of the data: a value and the data behind it, or nothing. */
  datatype Loading = Loading(text: Text, rest: Text) | Nothing

  /** Without the last LF if the tag was found. When nothing precedes the tag there is no LF to put the terminator on,
      and the value runs on through the tag and what follows it; if the tag is empty as well, the loader takes it for no
      value at all. */
  function Loaded(caseless: bool, s: Text, tag: Text): Loading {
    var c := Collect(caseless, s, tag);
    if !c.found then Loading(c.text, c.rest)
    else if c.text != [] then Loading(c.text[..|c.text| - 1], c.rest)
    else if Line(s) == [] then Nothing
    else Loading(s, c.rest)
  }

  /** Nothing comes only of an empty tag and an empty first line. */
  lemma NothingIs(caseless: bool, s: Text, tag: Text)
    ensures Loaded(caseless, s, tag) == Nothing <==> tag == [] && Line(s) == []
  {
    MatchesIsSame(caseless, Line(s), tag);
    assert |Folded(caseless, tag)| == |tag| && |Folded(caseless, Line(s))| == |Line(s)|;
  }

  // ---------------------------------------------------------------- writing

  /** The characters before the first LF: the only newline that OutputMultiLineText knows. */
  function LineLF(t: Text): (line: Text)
    ensures |line| <= |t| && line == t[..|line|] && LF !in line
    ensures |line| < |t| ==> t[|line|] == LF
  {
    if t == [] || t[0] == LF then [] else [t[0]] + LineLF(t[1..])
  }

  /** Every line of the text with the system's newline behind it. */
  function Lines(t: Text, newLine: Text): Text
    decreases |t|
  {
    var line := LineLF(t);
    if line == t then line + newLine else line + newLine + Lines(t[|line| + 1..], newLine)
  }

  /** OutputMultiLineText. */
  function Output(t: Text, newLine: Text): Text {
    if t == [] then [] else Lines(t, newLine)
  }

  predicate IsNewLine(newLine: Text) {
    newLine == [LF] || newLine == [CR, LF]
  }

  /** No line of the text matches the tag. */
  predicate NoTagLine(caseless: bool, t: Text, tag: Text)
    decreases |t|
  {
    var line := LineLF(t);
    !Matches(caseless, line, tag) && (line == t || NoTagLine(caseless, t[|line| + 1..], tag))
  }

  predicate IsTag(tag: Text) {
    NoNul(tag) && forall c | c in tag :: !IsNewLineChar(c)
  }

  // ---------------------------------------------------------------- written and read back

  lemma {:induction false} LineOf(line: Text, post: Text)
    requires forall c | c in line :: !IsNewLineChar(c)
    requires post == [] || IsNewLineChar(post[0])
    ensures Line(line + post) == line
  {
    if line == [] {
      assert line + post == post;
    } else {
      assert (line + post)[1..] == line[1..] + post;
      LineOf(line[1..], post);
    }
  }

  lemma SkipNewLineOf(newLine: Text, post: Text)
    requires IsNewLine(newLine)
    ensures newLine + post != [] && IsNewLineChar((newLine + post)[0]) && SkipNewLine(newLine + post) == post
  {
    assert newLine == [LF] ==> (newLine + post)[1..] == post;
    assert newLine == [CR, LF] ==> (newLine + post)[2..] == post;
  }

  /** A line with its newline: the loop goes past it, or finds it to be the tag. */
  lemma CollectLine(caseless: bool, line: Text, newLine: Text, post: Text, tag: Text)
    requires IsNewLine(newLine) && forall c | c in line :: !IsNewLineChar(c)
    ensures var r := Collect(caseless, post, tag);
            Collect(caseless, line + (newLine + post), tag) ==
              if Matches(caseless, line, tag) then Collected([], true, post)
              else Collected(line + [LF] + r.text, r.found, r.rest)
  {
    SkipNewLineOf(newLine, post);
    LineOf(line, newLine + post);
    var s := line + (newLine + post);
    assert s[|line|..] == newLine + post;
    assert line != s by { assert |s| > |line|; }
  }

  /** What follows the text in the file. */
  function Ending(tag: Text, newLine: Text, more: Text): Text {
    tag + (newLine + more)
  }

  lemma CollectEnding(caseless: bool, tag: Text, newLine: Text, more: Text)
    requires IsNewLine(newLine) && IsTag(tag)
    ensures Collect(caseless, Ending(tag, newLine, more), tag) == Collected([], true, more)
  {
    MatchesIsSame(caseless, tag, tag);
    CollectLine(caseless, tag, newLine, more, tag);
  }

  lemma Associate(a: Text, b: Text, c: Text, e: Text)
    ensures a + b + c + e == a + (b + (c + e)) == a + (b + c + e) && a + b + c == a + (b + c)
  {
  }

  lemma LinesThen(t: Text, newLine: Text, post: Text)
    ensures var line := LineLF(t);
            Lines(t, newLine) + post
            == line + (newLine + (if line == t then post else Lines(t[|line| + 1..], newLine) + post))
  {
    hide LineLF;
    var line := LineLF(t);
    if line == t {
      Associate(line, newLine, post, []);
    } else {
      Associate(line, newLine, Lines(t[|line| + 1..], newLine), post);
    }
  }

  /** The lines of a text in front of the tag are the text again, or the loop stops too early. */
  lemma {:induction false} CollectLines(caseless: bool, t: Text, newLine: Text, tag: Text, more: Text)
    requires IsNewLine(newLine) && IsTag(tag) && CR !in t
    ensures var c := Collect(caseless, Lines(t, newLine) + Ending(tag, newLine, more), tag);
            if NoTagLine(caseless, t, tag) then c == Collected(t + [LF], true, more) else |c.rest| > |more|
    decreases |t|
  {
    hide Collect, Matches, Lines, LineLF, Ending, IsNewLine;
    var post := Ending(tag, newLine, more);
    var line := LineLF(t);
    assert forall c | c in line :: !IsNewLineChar(c) by { LineHasNoNewLine(t); }
    LinesThen(t, newLine, post);
    if line == t {
      CollectLine(caseless, line, newLine, post, tag);
      CollectEnding(caseless, tag, newLine, more);
      RestIsLonger(tag, newLine, more, []);
      assert [] + post == post && line + [LF] + [] == t + [LF];
    } else {
      var below := t[|line| + 1..];
      CollectLine(caseless, line, newLine, Lines(below, newLine) + post, tag);
      CollectLines(caseless, below, newLine, tag, more);
      RestIsLonger(tag, newLine, more, Lines(below, newLine));
      assert line + [LF] + (below + [LF]) == t + [LF];
    }
  }

  lemma LineHasNoNewLine(t: Text)
    requires CR !in t
    ensures forall c | c in LineLF(t) :: !IsNewLineChar(c)
    ensures |LineLF(t)| < |t| ==> CR !in t[|LineLF(t)| + 1..]
  {
  }

  lemma RestIsLonger(tag: Text, newLine: Text, more: Text, lines: Text)
    requires IsNewLine(newLine)
    ensures |lines + Ending(tag, newLine, more)| > |more|
  {
  }

  lemma {:induction false} CollectHasNoCR(caseless: bool, s: Text, tag: Text)
    ensures CR !in Collect(caseless, s, tag).text
    decreases |s|
  {
    var line := Line(s);
    assert CR !in line;
    if !Matches(caseless, line, tag) && line != s {
      CollectHasNoCR(caseless, SkipNewLine(s[|line|..]), tag);
    }
  }

  lemma {:induction false} LinesAreLonger(t: Text, newLine: Text)
    requires IsNewLine(newLine)
    ensures |Lines(t, newLine)| > |t|
    decreases |t|
  {
    var line := LineLF(t);
    if line != t {
      LinesAreLonger(t[|line| + 1..], newLine);
    }
  }

  /** LoadMultiLineText undoes OutputMultiLineText, and leaves the data behind the tag, exactly for the texts that are
      not empty, hold no CR and have no line that matches the tag. */
  lemma LoadedUndoesOutput(caseless: bool, t: Text, newLine: Text, tag: Text, more: Text)
    requires IsNewLine(newLine) && IsTag(tag) && NoNul(t) && NoNul(more)
    ensures Loaded(caseless, Output(t, newLine) + Ending(tag, newLine, more), tag) == Loading(t, more)
            <==> t != [] && CR !in t && NoTagLine(caseless, t, tag)
  {
    hide Collect, NoTagLine, Matches;
    var s := Output(t, newLine) + Ending(tag, newLine, more);
    var c := Collect(caseless, s, tag);
    if t == [] {
      assert s == Ending(tag, newLine, more);
      CollectEnding(caseless, tag, newLine, more);
    } else if CR in t {
      CollectHasNoCR(caseless, s, tag);
      LinesAreLonger(t, newLine);
      assert |s| > |t|;
      assert c.found && c.text != [] ==> CR !in c.text[..|c.text| - 1];
    } else {
      CollectLines(caseless, t, newLine, tag, more);
      assert (t + [LF])[..|t|] == t;
    }
  }

  // ---------------------------------------------------------------- the buffer

  /** Data `r` that ends with a terminator, and what lies behind. */
  predicate IsData(r: Text, tail: Text) {
    NoNul(r) && tail != [] && tail[0] == NUL
  }

  /** The end of the line at `at`: a newline character or the terminator. */
  method EndOfLine(d: array<int>, at: nat, ghost r: Text, ghost tail: Text) returns (eol: nat)
    requires at <= d.Length && d[at..] == r + tail && IsData(r, tail)
    ensures eol == at + |Line(r)| <= at + |r| < d.Length
  {
    eol := at;
    ghost var rest := r;
    while d[eol] != NUL && !IsNewLineChar(d[eol])
      invariant at <= eol <= at + |r| < d.Length && d[eol..] == rest + tail && rest == r[eol - at..]
      invariant |Line(r)| == eol - at + |Line(rest)|
      decreases |rest|
    {
      assert d[eol] == (rest + tail)[0];
      assert (rest + tail)[1..] == rest[1..] + tail && d[eol..][1..] == d[eol + 1..];
      rest := rest[1..];
      eol := eol + 1;
    }
    assert d[eol] == (rest + tail)[0];
    assert rest != [] ==> rest[0] in r;
  }

  /** The line of `n` characters moves down to where it belongs. */
  method MoveDown(d: array<int>, to: nat, from: nat, n: nat)
    requires to < from && from + n < d.Length
    modifies d
    ensures d[..to + n] == old(d[..to]) + old(d[from..from + n]) && d[to + n] == NUL && d[from + n..] == old(d[from + n..])
  {
    ghost var front, line := d[..to], d[from..from + n];
    forall i | 0 <= i < n {
      d[to + i] := d[from + i];
    }
    assert d[..to + n] == front + line;
    d[to + n] := NUL;
    assert d[..to + n] == front + line;
  }

  /** One turn of the loop up to the comparison: the line is found, moved down to `to` and ended. */
  method TakeLine(d: array<int>, to: nat, at: nat, ghost r: Text, ghost tail: Text) returns (eol: nat, c: int)
    requires to <= at <= d.Length && d[at..] == r + tail && IsData(r, tail)
    modifies d
    ensures eol == at + |Line(r)| < d.Length && c == (r + tail)[|Line(r)|]
    ensures d[..to + |Line(r)|] == old(d[..to]) + Line(r) && d[to..to + |Line(r)|] == Line(r) && d[to + |Line(r)|] == NUL
    ensures d[..to] == old(d[..to]) && d[eol] == NUL && d[eol + 1..] == (r + tail)[|Line(r)| + 1..]
  {
    hide Line, IsData;
    eol := EndOfLine(d, at, r, tail);
    var n := eol - at;
    LineInData(d[..], at, n, r, tail);
    if to < at {
      MoveDown(d, to, at, n);
    } else {
      assert d[..to + n] == d[..to] + d[at..at + n];
    }
    c := d[eol];
    ghost var moved := d[..];
    d[eol] := NUL;
    StillThere(moved, d[..], to, to + n, eol);
  }

  lemma LineInData(b: Text, at: nat, n: nat, r: Text, tail: Text)
    requires at <= |b| && b[at..] == r + tail && n == |Line(r)| && at + n < |b|
    ensures b[at..at + n] == Line(r) && b[at + n..] == (r + tail)[n..] && b[at + n..][0] == b[at + n]
    ensures b[at + n..][1..] == b[at + n + 1..] && (r + tail)[n..][1..] == (r + tail)[n + 1..]
  {
    assert b[at..at + n] == b[at..][..n] == (r + tail)[..n] == r[..n];
  }

  lemma StillThere(b: Text, b': Text, to: nat, k: nat, eol: nat)
    requires to <= k <= eol < |b| && b' == b[eol := NUL]
    ensures b'[..k] == b[..k] && b'[..to] == b[..k][..to] && b'[to..k] == b[..k][to..]
    ensures b'[eol + 1..] == b[eol..][1..]
  {
  }

  /** Whether the line just ended matches the tag. */
  method CompareLine(caseless: bool, d: array<int>, to: nat, n: nat, tag: Text) returns (matches: bool)
    requires to + n <= d.Length
    ensures matches == Matches(caseless, d[to..to + n], tag)
  {
    var less := IsLess(caseless, d[to..to + n], tag);
    var greater := IsLess(caseless, tag, d[to..to + n]);
    matches := !less && !greater;
  }

  /** The newline character that ended a line is put back and skipped. */
  method RestoreAndSkip(d: array<int>, eol: nat, c: int, ghost r: Text, ghost tail: Text) returns (next: nat)
    requires eol < d.Length && r != [] && r[0] == c && IsNewLineChar(c)
    requires d[eol + 1..] == r[1..] + tail && tail != [] && tail[0] == NUL
    modifies d
    ensures eol < next <= d.Length && d[next..] == SkipNewLine(r) + tail
    ensures d[..eol] == old(d[..eol]) && d[eol] == c && d[eol + 1..] == old(d[eol + 1..])
  {
    ghost var behind := d[eol + 1..];
    assert d[eol + 1] == behind[0] == (r[1..] + tail)[0];
    d[eol] := c;
    assert d[eol + 1..] == behind;
    next := eol + if d[eol] == CR && d[eol + 1] == LF then 2 else 1;
    assert d[next..] == behind[next - eol - 1..];
  }

  /** A line that is not the tag stays, with a single LF behind it. */
  method PassLine(d: array<int>, to: nat, eol: nat, c: int, ghost r: Text, ghost tail: Text) returns (at: nat)
    requires to <= eol < d.Length && r != [] && r[0] == c && IsNewLineChar(c)
    requires d[eol + 1..] == r[1..] + tail && tail != [] && tail[0] == NUL
    modifies d
    ensures eol < at <= d.Length && d[at..] == SkipNewLine(r) + tail && d[..to + 1] == old(d[..to]) + [LF]
  {
    at := RestoreAndSkip(d, eol, c, r, tail);
    ghost var front, behind := d[..to], d[at..];
    assert front == old(d[..eol])[..to];
    d[to] := LF;
    assert d[..to + 1] == front + [LF] && d[at..] == behind;
  }

  /** The tag was found: the last LF gives way to the terminator, and the data goes on behind the tag's line. */
  method EndValue(d: array<int>, to: nat, eol: nat, c: int, ghost r: Text, ghost tail: Text) returns (next: nat)
    requires 0 < to <= eol < d.Length && d[eol] == NUL && tail != [] && tail[0] == NUL
    requires if r == [] then c == NUL else r[0] == c && IsNewLineChar(c)
    requires d[eol + 1..] == (r + tail)[1..]
    modifies d
    ensures next <= d.Length && d[next..] == (if r == [] then [] else SkipNewLine(r)) + tail
    ensures d[..to - 1] == old(d[..to - 1]) && d[to - 1] == NUL
    ensures d[to..eol] == old(d[to..eol]) && d[eol] == c && d[eol + 1..] == old(d[eol + 1..])
  {
    ghost var behind := d[eol + 1..];
    d[to - 1] := NUL;
    next := eol;
    if c != NUL {
      ghost var line := d[to..eol];
      assert d[eol + 1..] == behind == r[1..] + tail;
      next := RestoreAndSkip(d, eol, c, r, tail);
      assert d[to..eol] == line;
    } else {
      assert d[eol..] == [NUL] + behind;
    }
  }

  // ---- the loop

  /** What the loop has collected in front of what it has not seen yet. */
  function Before(done: Text, c: Collected): Collected {
    Collected(done + c.text, c.found, c.rest)
  }

  lemma NextLine(caseless: bool, s: Text, done: Text, r: Text, tag: Text)
    requires Collect(caseless, s, tag) == Before(done, Collect(caseless, r, tag))
    ensures var line := Line(r);
            if Matches(caseless, line, tag) then
              Collect(caseless, s, tag) == Collected(done, true, if line == r then [] else SkipNewLine(r[|line|..]))
            else if line == r then Collect(caseless, s, tag) == Collected(done + line, false, [])
            else
              Collect(caseless, s, tag)
              == Before(done + (line + [LF]), Collect(caseless, SkipNewLine(r[|line|..]), tag))
  {
    hide Line, Matches, SkipNewLine;
    var line := Line(r);
    assert done + [] == done;
    if !Matches(caseless, line, tag) && line != r {
      Associate(done, line, [LF], Collect(caseless, SkipNewLine(r[|line|..]), tag).text);
      Associate(done, line + [LF], Collect(caseless, SkipNewLine(r[|line|..]), tag).text, []);
    }
  }

  lemma CollectFromStart(caseless: bool, s: Text, tag: Text)
    ensures Collect(caseless, s, tag) == Before([], Collect(caseless, s, tag))
  {
    assert [] + Collect(caseless, s, tag).text == Collect(caseless, s, tag).text;
  }

  /** Where a line ends in its data. */
  lemma LineEnds(r: Text, tail: Text)
    requires IsData(r, tail)
    ensures var n := |Line(r)|; var r' := r[n..];
            && (r + tail)[n..] == r' + tail && (r + tail)[n + 1..] == (r' + tail)[1..]
            && (if r' == [] then (r + tail)[n] == NUL && Line(r) == r else
                  && (r + tail)[n] == r'[0] && IsNewLineChar(r'[0]) && Line(r) != r
                  && (r' + tail)[1..] == r'[1..] + tail && IsData(SkipNewLine(r'), tail))
  {
    hide Line, SkipNewLine;
    var n := |Line(r)|;
    var r' := r[n..];
    assert (r + tail)[n..] == r' + tail;
    assert (r + tail)[n + 1..] == (r + tail)[n..][1..];
    assert r[..n] + r' == r;
    if r' != [] {
      assert r'[0] == r[n] && (r' + tail)[1..] == r'[1..] + tail;
      SuffixIsData(r, n + |r'| - |SkipNewLine(r')|, tail);
    }
  }

  lemma IsDataIs(r: Text, tail: Text)
    requires IsData(r, tail)
    ensures tail != [] && tail[0] == NUL
  {
  }

  lemma SuffixIsData(r: Text, k: nat, tail: Text)
    requires IsData(r, tail) && k <= |r|
    ensures IsData(r[k..], tail)
  {
    assert forall c | c in r[k..] :: c in r;
  }

  /** The buffer between two turns: `front` ends at `to`, and the data not seen yet begins at `at`. */
  ghost predicate Between(d: array<int>, to: nat, front: Text, at: nat, data: Text)
    reads d
  {
    to <= at <= d.Length && d[..to] == front && d[at..] == data
  }

  /** The buffer when the line has been moved down behind `front` and ended. */
  ghost predicate Ended(d: array<int>, to: nat, eol: nat, front: Text, line: Text, behind: Text)
    reads d
  {
    && to + |line| <= eol < d.Length && d[..to + |line|] == front + line && d[to + |line|] == NUL
    && d[eol] == NUL && d[eol + 1..] == behind
  }

  lemma BetweenAtStart(d: array<int>, from: nat, data: Text)
    requires from <= d.Length && d[from..] == data
    ensures Between(d, from, d[..from] + [], from, data)
  {
    assert d[..from] + [] == d[..from];
  }

  /** One turn of the loop: unless it ends it, the line stands behind `front` with an LF, and the data goes on at `at'`. */
  method Turn(caseless: bool, d: array<int>, to: nat, at: nat, tag: Text, ghost front: Text, ghost r: Text, ghost tail: Text)
    returns (found: bool, eol: nat, c: int, at': nat)
    requires Between(d, to, front, at, r + tail) && IsData(r, tail)
    modifies d
    ensures to + |Line(r)| <= eol == at + |Line(r)| && c == (r + tail)[|Line(r)|]
    ensures found == Matches(caseless, Line(r), tag)
    ensures found || c == NUL ==> Ended(d, to, eol, front, Line(r), (r + tail)[|Line(r)| + 1..])
    ensures !found && c != NUL ==>
              && |Line(r)| < |r|
              && Between(d, to + |Line(r)| + 1, front + (Line(r) + [LF]), at', SkipNewLine(r[|Line(r)|..]) + tail)
  {
    hide Matches, Line, SkipNewLine, Ended, Between, IsData;
    LineEnds(r, tail);
    IsDataIs(r, tail);
    eol, c := TakeLineBetween(d, to, front, at, r, tail);
    found := CompareLine(caseless, d, to, eol - at, tag);
    at' := at;
    if !found && c != NUL {
      at' := PassBetween(d, to, eol - at, eol, c, front, Line(r), r[|Line(r)|..], tail);
    }
  }

  method TakeLineBetween(d: array<int>, to: nat, ghost front: Text, at: nat, ghost r: Text, ghost tail: Text)
    returns (eol: nat, c: int)
    requires Between(d, to, front, at, r + tail) && IsData(r, tail)
    modifies d
    ensures to + |Line(r)| <= eol == at + |Line(r)| < d.Length && c == (r + tail)[|Line(r)|]
    ensures d[to..to + |Line(r)|] == Line(r) && Ended(d, to, eol, front, Line(r), (r + tail)[|Line(r)| + 1..])
  {
    hide Line, IsData;
    eol, c := TakeLine(d, to, at, r, tail);
  }

  method PassBetween(d: array<int>, to: nat, n: nat, eol: nat, c: int, ghost front: Text, ghost line: Text, ghost r: Text,
      ghost tail: Text)
    returns (at: nat)
    requires n == |line| && r != [] && Ended(d, to, eol, front, line, r[1..] + tail) && r[0] == c && IsNewLineChar(c)
    requires tail != [] && tail[0] == NUL
    modifies d
    ensures Between(d, to + |line| + 1, front + (line + [LF]), at, SkipNewLine(r) + tail)
  {
    hide SkipNewLine;
    at := PassLine(d, to + n, eol, c, r, tail);
    Associate(front, line, [LF], []);
  }

  /** The loop, up to the line that is the tag or the last one; `done` is what was collected before that line, and `r` the
      data from it on. */
  method FindTag(caseless: bool, d: array<int>, from: nat, tag: Text, ghost s: Text, ghost tail: Text)
    returns (found: bool, to: nat, eol: nat, c: int, ghost done: Text, ghost r: Text)
    requires from <= d.Length && d[from..] == s + tail && IsData(s, tail)
    modifies d
    ensures IsData(r, tail) && to == from + |done| && |Line(r)| <= |r| && c == (r + tail)[|Line(r)|]
    ensures to + |Line(r)| <= eol
    ensures Ended(d, to, eol, old(d[..from]) + done, Line(r), (r + tail)[|Line(r)| + 1..])
    ensures found == Matches(caseless, Line(r), tag) && (found || c == NUL)
    ensures Collect(caseless, s, tag) == Before(done, Collect(caseless, r, tag))
    ensures if done == [] then r == s && eol == to + |Line(r)| else done[|done| - 1] == LF
  {
    hide Collect, Matches, Line, SkipNewLine, IsData, Between, Ended, Before;
    ghost var front := d[..from];
    done, r := [], s;
    var at := from;
    to := from;
    CollectFromStart(caseless, s, tag);
    BetweenAtStart(d, from, s + tail);
    while true
      invariant to == from + |done| && IsData(r, tail) && Between(d, to, front + done, at, r + tail)
      invariant Collect(caseless, s, tag) == Before(done, Collect(caseless, r, tag))
      invariant if done == [] then at == from && r == s else done[|done| - 1] == LF
      decreases |r|
    {
      NextLine(caseless, s, done, r, tag);
      LineEnds(r, tail);
      var at';
      found, eol, c, at' := Turn(caseless, d, to, at, tag, front + done, r, tail);
      if found || c == NUL {
        return;
      }
      Associate(front, done, Line(r) + [LF], []);
      to := to + (eol - at) + 1;
      at := at';
      done := done + (Line(r) + [LF]);
      r := SkipNewLine(r[|Line(r)|..]);
    }
  }

  /** What is left: the value at `from` with a terminator behind it, and the data that comes next. */
  ghost predicate Left(d: array<int>, front: Text, value: Text, next: nat, data: Text)
    reads d
  {
    && |front| > 0 && |front| + |value| < d.Length
    && d[..|front| - 1] == front[..|front| - 1] && d[|front|..|front| + |value|] == value && d[|front| + |value|] == NUL
    && next <= d.Length && d[next..] == data
  }

  /** A value that stands behind what was there before. */
  lemma InPlace(b: Text, front: Text, value: Text)
    requires |front| + |value| <= |b| && |front| > 0 && b[..|front| + |value|] == front + value
    ensures b[|front|..|front| + |value|] == value && b[..|front| - 1] == front[..|front| - 1]
  {
  }

  /** The data ended before the tag: the terminator is where it was. */
  lemma LeftUnfound(d: array<int>, to: nat, eol: nat, front: Text, done: Text, line: Text, tail: Text)
    requires front != [] && to == |front| + |done| && tail != [] && tail[0] == NUL
    requires Ended(d, to, eol, front + done, line, tail[1..])
    ensures Left(d, front, done + line, eol, tail)
  {
    Associate(front, done, line, []);
    InPlace(d[..], front, done + line);
    assert d[..][eol..] == [NUL] + tail[1..];
  }

  /** The tag was found behind other lines: the last LF gives way to the terminator. */
  method LeaveValue(d: array<int>, to: nat, eol: nat, c: int, ghost front: Text, ghost done: Text, ghost line: Text,
      ghost r: Text, ghost tail: Text)
    returns (next: nat)
    requires front != [] && done != [] && to == |front| + |done| && tail != [] && tail[0] == NUL
    requires Ended(d, to, eol, front + done, line, (r + tail)[1..])
    requires if r == [] then c == NUL else r[0] == c && IsNewLineChar(c)
    modifies d
    ensures Left(d, front, done[..|done| - 1], next, (if r == [] then [] else SkipNewLine(r)) + tail)
  {
    ghost var value := done[..|done| - 1];
    assert d[..to - 1] == d[..to + |line|][..to - 1] == front + value;
    next := EndValue(d, to, eol, c, r, tail);
    InPlace(d[..], front, value);
  }

  /** The tag's line is the first: nothing of the data has changed, and no terminator comes before its end. */
  method LeaveFirst(d: array<int>, to: nat, eol: nat, c: int, ghost front: Text, ghost line: Text, ghost r: Text, ghost tail: Text)
    returns (next: nat)
    requires to == |front| > 0 && eol == to + |line| && tail != [] && tail[0] == NUL
    requires Ended(d, to, eol, front, line, (r + tail)[1..])
    requires if r == [] then c == NUL else r[0] == c && IsNewLineChar(c)
    modifies d
    ensures Left(d, front, line + r, next, (if r == [] then [] else SkipNewLine(r)) + tail)
  {
    assert d[to..eol] == d[..eol][to..] == line;
    assert d[..to - 1] == d[..eol][..to - 1] == front[..to - 1];
    next := EndValue(d, to, eol, c, r, tail);
    Unchanged(d[..], to, eol, line, c, r, tail);
  }

  lemma Unchanged(b: Text, to: nat, eol: nat, line: Text, c: int, r: Text, tail: Text)
    requires to <= eol < |b| && b[to..eol] == line && b[eol] == c && tail != [] && tail[0] == NUL
    requires b[eol + 1..] == (r + tail)[1..] && (if r == [] then c == NUL else r[0] == c)
    ensures to + |line + r| < |b| && b[to..to + |line + r|] == line + r && b[to + |line + r|] == NUL
  {
    assert r + tail == [c] + (r + tail)[1..];
    assert b[to..] == b[to..eol] + ([b[eol]] + b[eol + 1..]);
    Associate(line, r, tail, []);
    assert b[to..] == (line + r) + tail;
    assert b[to + |line + r|] == b[to..][|line + r|];
  }

  lemma NothingBefore(from: nat, to: nat, eol: nat, done: Text, line: Text, r: Text, s: Text)
    requires to == from + |done| && to + |line| <= eol == from && (done == [] ==> r == s)
    ensures line == [] && done == [] && r == s && r[0..] == s
  {
  }

  lemma LeftNothing(d: array<int>, from: nat, front: Text, data: Text)
    requires from == |front| && data != [] && Ended(d, from, from, front + [], [], data[1..])
    ensures Untouched(d, front, from, data[1..])
  {
    assert front + [] + [] == front;
  }

  /** What the last line leaves of the data. */
  lemma LoadedAtLast(caseless: bool, s: Text, done: Text, r: Text, tag: Text, tail: Text)
    requires Collect(caseless, s, tag) == Before(done, Collect(caseless, r, tag)) && IsData(r, tail)
    ensures var line, r' := Line(r), r[|Line(r)|..];
            var rest := if r' == [] then [] else SkipNewLine(r');
            if Matches(caseless, line, tag) then
              Loaded(caseless, s, tag) ==
                if done != [] then Loading(done[..|done| - 1], rest)
                else if Line(s) == [] then Nothing
                else Loading(s, rest)
            else r' == [] ==> Loaded(caseless, s, tag) == Loading(done + line, [])
  {
    hide Collect, Matches, Line, SkipNewLine, IsData, Before;
    NextLine(caseless, s, done, r, tag);
    LineEnds(r, tail);
  }

  /** Nothing was loaded: the first newline character has given way to the terminator, and nothing else has changed. */
  ghost predicate Untouched(d: array<int>, front: Text, next: nat, behind: Text)
    reads d
  {
    next == |front| < d.Length && d[..next] == front && d[next] == NUL && d[next + 1..] == behind
  }

  /** LoadMultiLineText with a tag, on the data `s` from `from` on. It leaves the value at `from` with a terminator behind
      it, and the data that comes next from `next` on, or it says that there is none. */
  method LoadMultiLineText(caseless: bool, d: array<int>, from: nat, tag: Text, ghost s: Text, ghost tail: Text)
    returns (ok: bool, next: nat)
    requires 0 < from <= d.Length && d[from..] == s + tail && IsData(s, tail)
    modifies d
    ensures match Loaded(caseless, s, tag)
            case Loading(text, rest) => ok && Left(d, old(d[..from]), text, next, rest + tail)
            case Nothing => !ok && Untouched(d, old(d[..from]), next, (s + tail)[1..])
  {
    hide Collect, Matches, Line, SkipNewLine, Ended, Left, Untouched, IsData, NoNul, Loaded, Before;
    ghost var front := d[..from];
    var found, to, eol, c;
    ghost var done, r;
    found, to, eol, c, done, r := FindTag(caseless, d, from, tag, s, tail);
    LoadedAtLast(caseless, s, done, r, tag, tail);
    LineEnds(r, tail);
    IsDataIs(r, tail);
    ghost var line, r' := Line(r), r[|Line(r)|..];
    ok := true;
    if !found {
      next := eol;
      assert r' == [] && [] + tail == tail;
      LeftUnfound(d, to, eol, front, done, line, tail);
    } else if eol == from {
      NothingBefore(from, to, eol, done, line, r, s);
      LeftNothing(d, from, front, s + tail);
      ok, next := false, eol;
    } else if to == from {
      NothingBefore(from, to, to, done, [], r, s);
      assert front + done == front && line + r' == s;
      next := LeaveFirst(d, to, eol, c, front, line, r', tail);
    } else {
      next := LeaveValue(d, to, eol, c, front, done, line, r', tail);
    }
  }

  // ---------------------------------------------------------------- writing

  /** The end of the line at `at`, as OutputMultiLineText sees lines. */
  method EndOfLineLF(d: array<int>, at: nat, ghost t: Text, ghost tail: Text) returns (eol: nat)
    requires at <= d.Length && d[at..] == t + tail && IsData(t, tail)
    ensures eol == at + |LineLF(t)| <= at + |t| < d.Length && d[at..eol] == LineLF(t)
    ensures d[eol] == if LineLF(t) == t then NUL else LF
  {
    hide LineLF, NoNul;
    eol := at;
    ghost var rest := t;
    while d[eol] != NUL && d[eol] != LF
      invariant at <= eol <= at + |t| < d.Length && d[eol..] == rest + tail && rest == t[eol - at..] && IsData(rest, tail)
      invariant |LineLF(t)| == eol - at + |LineLF(rest)|
      decreases |rest|
    {
      LineLFStep(rest, tail);
      assert d[eol..][1..] == d[eol + 1..];
      rest := rest[1..];
      eol := eol + 1;
    }
    LineLFStep(rest, tail);
    LineLFAt(t);
    assert d[at..eol] == d[at..][..eol - at];
  }

  lemma LineLFStep(rest: Text, tail: Text)
    requires IsData(rest, tail)
    ensures (rest + tail)[0] == (if rest == [] then NUL else rest[0])
    ensures rest == [] || rest[0] == LF ==> LineLF(rest) == []
    ensures rest != [] ==> rest[0] != NUL && (rest + tail)[1..] == rest[1..] + tail && IsData(rest[1..], tail)
    ensures rest != [] && rest[0] != LF ==> |LineLF(rest)| == 1 + |LineLF(rest[1..])|
  {
    if rest != [] {
      assert rest[0] in rest;
      SuffixIsData(rest, 1, tail);
    }
  }

  lemma LineLFAt(t: Text)
    ensures |LineLF(t)| <= |t| && LineLF(t) == t[..|LineLF(t)|]
    ensures LineLF(t) == t <==> |LineLF(t)| == |t|
  {
  }

  /** One line is converted, with a terminator at its end for as long as that takes. */
  method ConvertLine(d: array<int>, at: nat, ghost t: Text, ghost tail: Text) returns (line: Text, next: nat, c: int)
    requires at <= d.Length && d[at..] == t + tail && IsData(t, tail)
    modifies d
    ensures line == LineLF(t) && d[..] == old(d[..]) && next <= d.Length
    ensures if line == t then c == NUL else c == LF && d[next..] == t[|line| + 1..] + tail && IsData(t[|line| + 1..], tail)
  {
    ghost var before := d[..];
    var eol := EndOfLineLF(d, at, t, tail);
    c := d[eol];
    d[eol] := NUL;
    line := d[at..eol];
    d[eol] := c;
    assert d[..] == before;
    next := eol + 1;
    if line != t {
      assert d[next..] == before[at..][|line| + 1..] == t[|line| + 1..] + tail;
      assert forall x | x in t[|line| + 1..] :: x in t;
    }
  }

  lemma LinesTurn(out: Text, t: Text, newLine: Text)
    ensures var line := LineLF(t);
            out + Lines(t, newLine) ==
              if line == t then out + line + newLine else out + line + newLine + Lines(t[|line| + 1..], newLine)
  {
    hide LineLF;
    Associate(out, LineLF(t), newLine, if LineLF(t) == t then [] else Lines(t[|LineLF(t)| + 1..], newLine));
  }

  /** OutputMultiLineText on the text `t` at `from`, which it leaves as it was. */
  method OutputMultiLineText(d: array<int>, from: nat, newLine: Text, ghost t: Text, ghost tail: Text) returns (out: Text)
    requires from <= d.Length && d[from..] == t + tail && IsData(t, tail)
    modifies d
    ensures out == Output(t, newLine) && d[..] == old(d[..])
  {
    hide LineLF, Lines, IsData;
    LineLFStep(t, tail);
    IsDataIs(t, tail);
    assert d[from] == d[from..][0];
    out := [];
    var at: nat, c := from, d[from];
    ghost var rest, all := t, Output(t, newLine);
    assert [] + Lines(t, newLine) == Lines(t, newLine);
    while c != NUL
      invariant d[..] == old(d[..])
      invariant if c == NUL then out == all else out + Lines(rest, newLine) == all
      invariant c != NUL ==> at <= d.Length && d[at..] == rest + tail && IsData(rest, tail)
      decreases |rest|, c != NUL
    {
      LinesTurn(out, rest, newLine);
      var line;
      line, at, c := ConvertLine(d, at, rest, tail);
      out := out + line + newLine;
      if line != rest {
        rest := rest[|line| + 1..];
      }
    }
  }
}
