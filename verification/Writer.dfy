/** Writer and PrettyWriter as they run: an output stream, a stack of levels, the integer printers' buffers
    (writer.h, prettywriter.h). Each event method is proved against one step of WriterSpec. */
module Writer {
  import opened Streams
  import opened Events
  import opened Numbers
  import opened Text
  import opened WriterSpec
  import Itoa
  import Quoting
  import Utf8

  class JsonWriter {
    const style: Style
    const os: OutputStream
    var levels: seq<Level>
    var hasRoot: bool

    constructor (style: Style, os: OutputStream)
      ensures this.style == style && this.os == os && levels == [] && !hasRoot
    {
      this.style := style;
      this.os := os;
      levels, hasRoot := [], false;
    }

    ghost function State(): WriterState
      reads this, os
    {
      WriterState(style, os.written, levels, hasRoot)
    }

    // -------------------------------------------------------------- separators

    method PutAll(text: bytes)
      modifies os
      ensures os.written == old(os.written) + text
    {
      for i := 0 to |text|
        invariant os.written == old(os.written) + text[..i]
      {
        os.Put(text[i]);
        assert text[..i + 1] == text[..i] + [text[i]];
      }
      assert text[..|text|] == text;
    }

    method WriteIndent()
      requires style.pretty
      modifies os
      ensures os.written == old(os.written) + Repeat(style.indentChar, |levels| * style.indentCount)
    {
      var count := |levels| * style.indentCount;
      for i := 0 to count
        invariant os.written == old(os.written) + Repeat(style.indentChar, i)
      {
        os.Put(style.indentChar);
        assert Repeat(style.indentChar, i + 1) == Repeat(style.indentChar, i) + [style.indentChar];
      }
    }

    method PutNewLine()
      requires style.pretty
      modifies os
      ensures os.written == old(os.written) + NewLine(style, |levels|)
    {
      os.Put(0x0A);
      WriteIndent();
    }

    method CountValue()
      requires levels != []
      modifies this`levels
      ensures var top := old(levels)[|old(levels)| - 1];
              levels == old(levels)[..|old(levels)| - 1] + [top.(valueCount := top.valueCount + 1)]
    {
      var top := levels[|levels| - 1];
      levels := levels[|levels| - 1 := top.(valueCount := top.valueCount + 1)];
    }

    method Prefix(isString: bool)
      requires !style.pretty && WriterSpec.Prefix(State(), isString).1
      modifies this`levels, this`hasRoot, os
      ensures State() == WriterSpec.Prefix(old(State()), isString).0
    {
      if levels != [] {
        var level := levels[|levels| - 1];
        if level.valueCount > 0 {
          if level.inArray {
            os.Put(COMMA);
          } else {
            os.Put(if level.valueCount % 2 == 0 then COMMA else COLON);
          }
        }
        CountValue();
      } else {
        hasRoot := true;
      }
    }

    method PrettyPrefix(isString: bool)
      requires style.pretty && WriterSpec.Prefix(State(), isString).1
      modifies this`levels, this`hasRoot, os
      ensures State() == WriterSpec.Prefix(old(State()), isString).0
    {
      hide NewLine;
      if levels != [] {
        var level := levels[|levels| - 1];
        if level.inArray {
          if level.valueCount > 0 {
            os.Put(COMMA);
          }
          PutNewLine();
        } else {
          if level.valueCount % 2 == 0 {
            if level.valueCount > 0 {
              os.Put(COMMA);
            }
            PutNewLine();
          } else {
            os.Put(COLON);
            os.Put(0x20);
          }
        }
        CountValue();
      } else {
        hasRoot := true;
      }
    }

    method Begin(isString: bool)
      requires WriterSpec.Prefix(State(), isString).1
      modifies this`levels, this`hasRoot, os
      ensures State() == WriterSpec.Prefix(old(State()), isString).0
    {
      if style.pretty {
        PrettyPrefix(isString);
      } else {
        Prefix(isString);
      }
    }

    // -------------------------------------------------------------- scalars

    method Null()
      requires Step(State(), Event.Null).1
      modifies this`levels, this`hasRoot, os
      ensures State() == Step(old(State()), Event.Null).0
    {
      hide WriterSpec.Prefix;
      Begin(false);
      PutAll(NULL);
    }

    method Bool(b: bool)
      requires Step(State(), Event.Bool(b)).1
      modifies this`levels, this`hasRoot, os
      ensures State() == Step(old(State()), Event.Bool(b)).0
    {
      hide WriterSpec.Prefix;
      Begin(false);
      PutAll(if b then TRUE else FALSE);
    }

    method PutDigits(buffer: array<byte>, end: nat)
      requires end <= buffer.Length
      modifies os
      ensures os.written == old(os.written) + buffer[..end]
    {
      for p := 0 to end
        invariant os.written == old(os.written) + buffer[..p]
      {
        os.Put(buffer[p]);
        assert buffer[..p + 1] == buffer[..p] + [buffer[p]];
      }
    }

    method Int(i: int32)
      requires Step(State(), Event.Int(i)).1
      modifies this`levels, this`hasRoot, os
      ensures State() == Step(old(State()), Event.Int(i)).0
    {
      hide WriterSpec.Prefix, DecimalInt;
      Begin(false);
      var buffer := new byte[11](_ => 0);
      var end := Itoa.I32ToA(i, buffer, 0);
      assert buffer[..end] == DecimalInt(i);
      PutDigits(buffer, end);
    }

    method Uint(u: uint32)
      requires Step(State(), Event.Uint(u)).1
      modifies this`levels, this`hasRoot, os
      ensures State() == Step(old(State()), Event.Uint(u)).0
    {
      hide WriterSpec.Prefix, Decimal;
      Begin(false);
      var buffer := new byte[10](_ => 0);
      var end := Itoa.U32ToA(u, buffer, 0);
      assert buffer[..end] == Decimal(u);
      PutDigits(buffer, end);
    }

    method Int64(i: int64)
      requires Step(State(), Event.Int64(i)).1
      modifies this`levels, this`hasRoot, os
      ensures State() == Step(old(State()), Event.Int64(i)).0
    {
      hide WriterSpec.Prefix, DecimalInt;
      Begin(false);
      var buffer := new byte[21](_ => 0);
      var end := Itoa.I64ToA(i, buffer, 0);
      assert buffer[..end] == DecimalInt(i);
      PutDigits(buffer, end);
    }

    method Uint64(u: uint64)
      requires Step(State(), Event.Uint64(u)).1
      modifies this`levels, this`hasRoot, os
      ensures State() == Step(old(State()), Event.Uint64(u)).0
    {
      hide WriterSpec.Prefix, Decimal;
      Begin(false);
      var buffer := new byte[20](_ => 0);
      var end := Itoa.U64ToA(u, buffer, 0);
      assert buffer[..end] == Decimal(u);
      PutDigits(buffer, end);
    }

    // -------------------------------------------------------------- strings

    method PutHex4(u: nat)
      requires u < 0x10000
      modifies os
      ensures os.written == old(os.written) + Quoting.Hex4(u)
    {
      os.Put(Quoting.HexDigit(u / 0x1000));
      os.Put(Quoting.HexDigit(u / 0x100 % 0x10));
      os.Put(Quoting.HexDigit(u / 0x10 % 0x10));
      os.Put(Quoting.HexDigit(u % 0x10));
    }

    method PutUnicodeEscape(codepoint: nat)
      requires Utf8.IsScalar(codepoint)
      modifies os
      ensures os.written == old(os.written) + Quoting.UnicodeEscape(codepoint)
    {
      hide Quoting.Hex4;
      os.Put(BACKSLASH);
      os.Put(0x75);
      if codepoint <= 0xFFFF {
        PutHex4(codepoint);
      } else {
        var s := codepoint - 0x10000;
        PutHex4(s / 0x400 + 0xD800);
        os.Put(BACKSLASH);
        os.Put(0x75);
        PutHex4(s % 0x400 + 0xDC00);
      }
    }

    method PutEscaped(c: byte)
      modifies os
      ensures os.written == old(os.written) + Quoting.EscapeByte(c)
    {
      var e := Quoting.EscapeLetter(c);
      if e != 0 {
        os.Put(BACKSLASH);
        os.Put(e);
        if e == 0x75 {
          os.Put(ZERO);
          os.Put(ZERO);
          os.Put(Quoting.HexDigit(c / 0x10));
          os.Put(Quoting.HexDigit(c % 0x10));
        }
      } else {
        os.Put(c);
      }
    }

    method WriteString(s: bytes) returns (ok: bool)
      modifies os
      ensures ok == Quoting.WriteString(style.ascii, s).ok
      ensures ok ==> os.written == old(os.written) + Quoting.WriteString(style.ascii, s).text
      ensures !ok ==> os.written == old(os.written) + ([QUOTE] + Quoting.WriteBody(style.ascii, s).text)
    {
      hide Quoting.EscapeByte, Quoting.UnicodeEscape, Utf8.DecodeOne;
      os.Put(QUOTE);
      ghost var start := os.written;
      ghost var goal := Quoting.WriteBody(style.ascii, s);
      var input := new InputStream(s);
      while input.rest != []
        invariant goal.ok == Quoting.WriteBody(style.ascii, input.rest).ok
        invariant start + goal.text == os.written + Quoting.WriteBody(style.ascii, input.rest).text
        decreases |input.rest|
      {
        var c := Peek(input.rest);
        if style.ascii && c >= 0x80 {
          ghost var before := input.rest;
          var decoded, codepoint := Utf8.Decode(input);
          if !decoded {
            assert os.written == start + goal.text == old(os.written) + ([QUOTE] + goal.text);
            return false;
          }
          ghost var n := Quoting.AcceptedLength(before);
          PutUnicodeEscape(codepoint);
        } else {
          c := input.Take();
          PutEscaped(c);
        }
      }
      assert os.written == start + goal.text;
      os.Put(QUOTE);
      assert os.written == old(os.written) + ([QUOTE] + goal.text + [QUOTE]);
      ok := true;
    }

    method String(s: bytes) returns (ok: bool)
      requires WriterSpec.Prefix(State(), true).1
      modifies this`levels, this`hasRoot, os
      ensures ok == Step(old(State()), Event.String(s)).1
      ensures ok ==> State() == Step(old(State()), Event.String(s)).0
    {
      hide WriterSpec.Prefix, Quoting.WriteString;
      ghost var begun := WriterSpec.Prefix(State(), true);
      Begin(true);
      ok := WriteString(s);
      assert begun.0.style == style by { PrefixKeepsStyle(old(State()), true); }
    }

    method Key(s: bytes) returns (ok: bool)
      requires WriterSpec.Prefix(State(), true).1
      modifies this`levels, this`hasRoot, os
      ensures ok == Step(old(State()), Event.Key(s)).1
      ensures ok ==> State() == Step(old(State()), Event.Key(s)).0
    {
      ok := String(s);
    }

    // -------------------------------------------------------------- brackets

    method StartObject()
      requires Step(State(), Event.StartObject).1
      modifies this`levels, this`hasRoot, os
      ensures State() == Step(old(State()), Event.StartObject).0
    {
      hide WriterSpec.Prefix;
      Begin(false);
      levels := levels + [Level(false, 0)];
      os.Put(LCURLY);
    }

    method StartArray()
      requires Step(State(), Event.StartArray).1
      modifies this`levels, this`hasRoot, os
      ensures State() == Step(old(State()), Event.StartArray).0
    {
      hide WriterSpec.Prefix;
      Begin(false);
      levels := levels + [Level(true, 0)];
      os.Put(LBRACKET);
    }

    method EndBracket(inArray: bool, bracket: byte)
      requires WriterSpec.Close(State(), inArray, bracket).1
      modifies this`levels, os
      ensures State() == WriterSpec.Close(old(State()), inArray, bracket).0
    {
      hide NewLine;
      var empty := levels[|levels| - 1].valueCount == 0;
      levels := levels[..|levels| - 1];
      if style.pretty && !empty {
        PutNewLine();
      }
      assert !style.pretty ==> NewLine(style, |levels|) == [] by { CompactNewLine(style, |levels|); }
      os.Put(bracket);
    }

    method EndObject(memberCount: uint32)
      requires Step(State(), Event.EndObject(memberCount)).1
      modifies this`levels, os
      ensures State() == Step(old(State()), Event.EndObject(memberCount)).0
    {
      EndBracket(false, RCURLY);
    }

    method EndArray(elementCount: uint32)
      requires Step(State(), Event.EndArray(elementCount)).1
      modifies this`levels, os
      ensures State() == Step(old(State()), Event.EndArray(elementCount)).0
    {
      EndBracket(true, RBRACKET);
    }
  }

  lemma PrefixKeepsStyle(w: WriterState, isString: bool)
    ensures WriterSpec.Prefix(w, isString).0.style == w.style
  {
  }

  lemma CompactNewLine(st: Style, depth: nat)
    ensures !st.pretty ==> NewLine(st, depth) == []
  {
  }
}
