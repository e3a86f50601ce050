/** Byte streams: what the readers, writers and codecs of rapidjson take from and put to. */
module Streams {
  type byte = x: int | 0 <= x < 0x100
  type bytes = seq<byte>

  const QUOTE: byte := 0x22        // "
  const COMMA: byte := 0x2C        // ,
  const MINUS: byte := 0x2D        // -
  const DOT: byte := 0x2E          // .
  const ZERO: byte := 0x30         // 0
  const COLON: byte := 0x3A        // :
  const LBRACKET: byte := 0x5B     // [
  const BACKSLASH: byte := 0x5C    // \
  const RBRACKET: byte := 0x5D     // ]
  const LCURLY: byte := 0x7B       // {
  const RCURLY: byte := 0x7D       // }

  /** The byte under the cursor of a stream of which `s` is left; 0 at the end. */
  function Peek(s: bytes): byte {
    if s == [] then 0 else s[0]
  }

  /** What is left after one Take; the end of the stream stays where it is. */
  function Next(s: bytes): bytes {
    if s == [] then [] else s[1..]
  }

  lemma Associate(a: bytes, b: bytes, c: bytes)
    ensures a + b + c == a + (b + c)
  {
  }

  lemma TakeFront(a: bytes, b: bytes)
    requires a != []
    ensures Peek(a + b) == a[0] && Next(a + b) == a[1..] + b
  {
    assert (a + b)[1..] == a[1..] + b;
  }

  predicate IsSpace(c: byte) {
    c == 0x20 || c == 0x0A || c == 0x0D || c == 0x09
  }

  predicate IsDigit(c: byte) {
    ZERO <= c <= 0x39
  }

  predicate AllSpace(s: bytes) {
    forall i | 0 <= i < |s| :: IsSpace(s[i])
  }

  function SkipSpace(s: bytes): (r: bytes)
    ensures |r| <= |s|
    ensures !IsSpace(Peek(r))
  {
    if IsSpace(Peek(s)) then SkipSpace(Next(s)) else s
  }

  lemma {:induction false} SkipSpaceOver(w: bytes, post: bytes)
    requires AllSpace(w)
    requires !IsSpace(Peek(post))
    ensures SkipSpace(w + post) == post
  {
    if w == [] {
      assert w + post == post;
    } else {
      assert (w + post)[1..] == w[1..] + post;
      SkipSpaceOver(w[1..], post);
    }
  }

  class InputStream {
    var rest: bytes

    constructor (src: bytes)
      ensures rest == src
    {
      rest := src;
    }

    method Take() returns (c: byte)
      modifies this
      ensures c == Peek(old(rest))
      ensures rest == Next(old(rest))
    {
      c := Peek(rest);
      rest := Next(rest);
    }
  }

  class OutputStream {
    var written: bytes

    constructor ()
      ensures written == []
    {
      written := [];
    }

    method Put(c: byte)
      modifies this
      ensures written == old(written) + [c]
    {
      written := written + [c];
    }
  }
}
