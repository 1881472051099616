/**
 Bytes, the characters the codec looks for, and the result type of a reader.

 A reader is a function on the bytes that are still unread. It either fails or gives a value
 together with the bytes left over, which are always a suffix of what it was given.
 */
module Bytes {

  type byte = i: int | 0 <= i < 256
  type bytes = seq<byte>

  const QUOTE: byte := 34
  const COMMA: byte := 44
  const PLUS: byte := 43
  const MINUS: byte := 45
  const DOT: byte := 46
  const SLASH: byte := 47
  const ZERO: byte := 48
  const NINE: byte := 57
  const COLON: byte := 58
  const LBRACKET: byte := 91
  const BACKSLASH: byte := 92
  const RBRACKET: byte := 93
  const UNDERSCORE: byte := 95
  const LBRACE: byte := 123
  const RBRACE: byte := 125

  const NULL: bytes := [110, 117, 108, 108]
  const TRUE: bytes := [116, 114, 117, 101]
  const FALSE: bytes := [102, 97, 108, 115, 101]

  /** The bytes of an ASCII text. */
  function Ascii(s: string): (r: bytes)
    requires forall i :: 0 <= i < |s| ==> s[i] < 128 as char
    ensures |r| == |s| && forall i :: 0 <= i < |s| ==> r[i] == s[i] as int
  {
    seq(|s|, i requires 0 <= i < |s| => s[i] as int)
  }

  /** The deepest nesting of objects and arrays that any decoder accepts. */
  const MAX_DEPTH := 100

  datatype Option<+T> = None | Some(value: T)

  /** Outcome of a reader: failure, or a value and the unread rest. */
  datatype Read<+T> = Err | Ok(value: T, rest: bytes) {
    predicate IsFailure() {
      Err?
    }

    function PropagateFailure<U>(): Read<U>
      requires Err?
    {
      Err
    }

    function Extract(): (T, bytes)
      requires Ok?
    {
      (value, rest)
    }
  }

  predicate IsWs(c: byte) {
    c == 32 || c == 9 || c == 13 || c == 10
  }

  predicate IsTerminator(c: byte) {
    c == COMMA || c == RBRACE || c == RBRACKET || IsWs(c)
  }

  predicate IsDigit(c: byte) {
    ZERO <= c <= NINE
  }

  /** What may follow a bare token such as a number: the end of the input or a terminator. */
  predicate Ended(s: bytes) {
    s == [] || IsTerminator(s[0])
  }

  predicate AllWs(s: bytes) {
    forall i :: 0 <= i < |s| ==> IsWs(s[i])
  }

  lemma NoSpace()
    ensures AllWs([])
  {
  }

  predicate AllDigits(s: bytes) {
    forall i :: 0 <= i < |s| ==> IsDigit(s[i])
  }

  /** The first byte of `s` is `c`. */
  predicate At(s: bytes, c: byte) {
    s != [] && s[0] == c
  }

  function SkipWs(s: bytes): (r: bytes)
    ensures |r| <= |s|
    ensures r == [] || !IsWs(r[0])
  {
    if s != [] && IsWs(s[0]) then SkipWs(s[1..]) else s
  }

  /** Skipping white space is idempotent and does nothing in front of anything else. */
  lemma SkipWsStop(s: bytes)
    requires s == [] || !IsWs(s[0])
    ensures SkipWs(s) == s
  {
  }

  lemma {:induction false} SkipWsOver(w: bytes, s: bytes)
    requires AllWs(w)
    ensures SkipWs(w + s) == SkipWs(s)
  {
    if w == [] {
      assert w + s == s;
    } else {
      assert (w + s)[1..] == w[1..] + s;
      SkipWsOver(w[1..], s);
    }
  }

  lemma {:induction false} SkipWsSplit(s: bytes)
    ensures var r := SkipWs(s); AllWs(s[..|s| - |r|]) && s == s[..|s| - |r|] + r
  {
    if s != [] && IsWs(s[0]) {
      SkipWsSplit(s[1..]);
      var r := SkipWs(s);
      assert s[..|s| - |r|] == [s[0]] + s[1..][..|s| - 1 - |r|];
    }
  }

  /** Leading literal: the rest of `s` after `word`, when `s` starts with it. */
  predicate StartsWith(s: bytes, word: bytes) {
    |word| <= |s| && s[..|word|] == word
  }

  lemma StartsWithAppend(word: bytes, s: bytes)
    ensures StartsWith(word + s, word) && (word + s)[|word|..] == s
  {
  }

  /** What reading comes to, depending on the nesting. */
  function IfFits<T>(fits: bool, v: T, k: bytes): Read<T> {
    if fits then Ok(v, k) else Err
  }

  function Max(a: nat, b: nat): nat {
    if a < b then b else a
  }
}
