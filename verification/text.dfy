/**
 JSON strings: escaping as the encoders write it, scanning and unescaping as the decoders read it.
 */
module Text {
  import opened Bytes

  // ---------------------------------------------------------------- writing

  function HexDigit(v: int): (r: byte)
    requires 0 <= v < 16
  {
    if v < 10 then ZERO + v else 97 + v - 10
  }

  /** What the encoder writes for one byte of a string. */
  function EscapeByte(c: byte): bytes {
    if c == BACKSLASH || c == QUOTE then [BACKSLASH, c]
    else if c == 10 then [BACKSLASH, 110]
    else if c == 13 then [BACKSLASH, 114]
    else if c == 9 then [BACKSLASH, 116]
    else if c < 0x20 then [BACKSLASH, 117, ZERO, ZERO, HexDigit(c / 16), HexDigit(c % 16)]
    else [c]
  }

  function Escape(s: bytes): bytes {
    if s == [] then [] else EscapeByte(s[0]) + Escape(s[1..])
  }

  function Quote(s: bytes): bytes {
    [QUOTE] + Escape(s) + [QUOTE]
  }

  // ---------------------------------------------------------------- scanning

  /** Outcome of looking for the closing quote: the raw contents and whether they hold an escape. */
  datatype Scan = Unterminated | Scanned(raw: bytes, escaped: bool, rest: bytes)

  /** The loop of readStringBytes, started behind the opening quote. */
  function ScanString(s: bytes): (r: Scan)
    ensures r.Scanned? ==> |r.rest| < |s|
  {
    if s == [] then Unterminated
    else if s[0] == QUOTE then Scanned([], false, s[1..])
    else if s[0] == BACKSLASH then
      if |s| < 2 then Unterminated
      else
        match ScanString(s[2..])
        case Unterminated => Unterminated
        case Scanned(raw, _, rest) =>
          Scanned(s[..2] + raw, true, rest)
    else if s[0] < 0x20 then Unterminated
    else
      match ScanString(s[1..])
      case Unterminated => Unterminated
      case Scanned(raw, escaped, rest) =>
        Scanned([s[0]] + raw, escaped, rest)
  }

  // ---------------------------------------------------------------- unescaping

  function HexValue(c: byte): (r: Option<int>)
    ensures r.Some? ==> 0 <= r.value < 16
  {
    if ZERO <= c <= NINE then Some(c - ZERO)
    else if 97 <= c <= 102 then Some(c - 97 + 10)
    else if 65 <= c <= 70 then Some(c - 65 + 10)
    else None
  }

  /** parseHexRune on exactly four bytes. */
  function HexRune(s: bytes): (r: Option<int>)
    requires |s| == 4
    ensures r.Some? ==> 0 <= r.value < 0x10000
  {
    var a, b, c, d := HexValue(s[0]), HexValue(s[1]), HexValue(s[2]), HexValue(s[3]);
    if a.None? || b.None? || c.None? || d.None? then None
    else Some(((a.value * 16 + b.value) * 16 + c.value) * 16 + d.value)
  }

  predicate IsHighSurrogate(r: int) {
    0xD800 <= r <= 0xDBFF
  }

  predicate IsLowSurrogate(r: int) {
    0xDC00 <= r <= 0xDFFF
  }

  /** A Unicode scalar value: a code point that is not a surrogate. */
  predicate IsScalarValue(r: int) {
    0 <= r < 0xD800 || 0xE000 <= r < 0x110000
  }

  /** UTF-8 encoding of a scalar value (utf8.AppendRune; section 3 of RFC 3629). */
  function Utf8(r: int): (s: bytes)
    requires IsScalarValue(r)
  {
    if r < 0x80 then [r]
    else if r < 0x800 then [0xC0 + r / 64, 0x80 + r % 64]
    else if r < 0x10000 then [0xE0 + r / 4096, 0x80 + r / 64 % 64, 0x80 + r % 64]
    else [0xF0 + r / 262144, 0x80 + r / 4096 % 64, 0x80 + r / 64 % 64, 0x80 + r % 64]
  }

  /** utf16.DecodeRune on a proper pair. */
  function JoinSurrogates(hi: int, lo: int): (r: int)
    requires IsHighSurrogate(hi) && IsLowSurrogate(lo)
    ensures IsScalarValue(r) && r >= 0x10000
  {
    (hi - 0xD800) * 1024 + (lo - 0xDC00) + 0x10000
  }

  /** The byte a two-character escape stands for. */
  function SimpleEscape(c: byte): Option<byte> {
    if c == QUOTE || c == BACKSLASH || c == SLASH then Some(c)
    else if c == 98 then Some(8)
    else if c == 102 then Some(12)
    else if c == 110 then Some(10)
    else if c == 114 then Some(13)
    else if c == 116 then Some(9)
    else None
  }

  /** One step of the loop of UnescapeString: the bytes produced and the number of bytes read. */
  datatype Step = Bad | Good(out: bytes, used: nat)

  function UnescapeStep(s: bytes): (r: Step)
    requires s != []
    ensures r.Good? ==> 0 < r.used <= |s|
  {
    if s[0] != BACKSLASH then
      if s[0] < 0x20 then Bad else Good([s[0]], 1)
    else if |s| < 2 then Bad
    else if s[1] != 117 then
      match SimpleEscape(s[1])
      case None => Bad
      case Some(c) => Good([c], 2)
    else if |s| < 6 then Bad
    else
      match HexRune(s[2..6])
      case None => Bad
      case Some(r) =>
        if IsHighSurrogate(r) then
          if |s| < 12 || s[6] != BACKSLASH || s[7] != 117 then Bad
          else
            match HexRune(s[8..12])
            case None => Bad
            case Some(lo) => if IsLowSurrogate(lo) then Good(Utf8(JoinSurrogates(r, lo)), 12) else Bad
        else if IsLowSurrogate(r) then Bad
        else Good(Utf8(r), 6)
  }

  function Unescape(s: bytes): Option<bytes> {
    if s == [] then Some([])
    else
      match UnescapeStep(s)
      case Bad => None
      case Good(out, used) =>
        match Unescape(s[used..])
        case None => None
        case Some(t) => Some(out + t)
  }

  // ---------------------------------------------------------------- reading

  /** What a scanned string denotes. */
  function Contents(raw: bytes, escaped: bool): Option<bytes> {
    if escaped then Unescape(raw) else Some(raw)
  }

  /** readStringBytes. */
  function ReadString(s: bytes): (r: Read<bytes>)
    ensures r.Ok? ==> |r.rest| < |s|
  {
    var t := SkipWs(s);
    if !At(t, QUOTE) then Err
    else
      match ScanString(t[1..])
      case Unterminated => Err
      case Scanned(raw, escaped, rest) =>
        match Contents(raw, escaped)
        case None => Err
        case Some(v) => Ok(v, rest)
  }

  /** The loop of readObjectKeyFast: plain keys are returned as they stand, others go to `whole`. */
  datatype KeyScan = BadKey | Fallback | PlainKey(key: bytes, rest: bytes)

  function ScanKey(s: bytes): (r: KeyScan)
    ensures r.PlainKey? ==> |r.rest| < |s|
  {
    if s == [] then BadKey
    else if s[0] == QUOTE then PlainKey([], s[1..])
    else if s[0] == BACKSLASH || s[0] >= 0x80 then Fallback
    else if s[0] < 0x20 then BadKey
    else
      match ScanKey(s[1..])
      case PlainKey(key, rest) => PlainKey([s[0]] + key, rest)
      case other => other
  }

  /** readObjectKeyFast. */
  function ReadKeyFast(s: bytes): (r: Read<bytes>)
    ensures r.Ok? ==> |r.rest| < |s|
  {
    if !At(s, QUOTE) then Err
    else
      match ScanKey(s[1..])
      case BadKey => Err
      case Fallback => ReadString(s)
      case PlainKey(key, rest) => Ok(key, rest)
  }

  lemma {:induction false} ScanKeyIsScan(s: bytes)
    ensures match ScanKey(s)
            case BadKey => ScanString(s).Unterminated?
            case PlainKey(key, rest) => ScanString(s) == Scanned(key, false, rest)
            case Fallback => true
  {
    if s != [] && s[0] != QUOTE && s[0] != BACKSLASH && 0x20 <= s[0] < 0x80 {
      ScanKeyIsScan(s[1..]);
    }
  }

  /** The shortcut for keys reads exactly what readStringBytes reads when it stands at a quote or is to fail. */
  lemma KeyFastIsReadString(s: bytes)
    requires s == [] || !IsWs(s[0])
    ensures ReadKeyFast(s) == ReadString(s)
  {
    if At(s, QUOTE) {
      ScanKeyIsScan(s[1..]);
    }
  }

  // ---------------------------------------------------------------- writing then reading

  lemma EscapeByteUnescapes(c: byte, t: bytes)
    ensures UnescapeStep(EscapeByte(c) + t) == Good([c], |EscapeByte(c)|)
    ensures (EscapeByte(c) + t)[|EscapeByte(c)|..] == t
  {
    var e := EscapeByte(c);
    var s := e + t;
    if |e| == 6 {
      assert s[2..6] == [ZERO, ZERO, HexDigit(c / 16), HexDigit(c % 16)];
      assert HexRune(s[2..6]) == Some(c);
    }
  }

  lemma EscapeNonempty(c: byte)
    ensures EscapeByte(c) != []
  {
  }

  lemma {:induction false} EscapeUnescapes(s: bytes)
    ensures Unescape(Escape(s)) == Some(s)
  {
    hide EscapeByte, UnescapeStep;
    if s != [] {
      EscapeNonempty(s[0]);
      EscapeUnescapes(s[1..]);
      EscapeByteUnescapes(s[0], Escape(s[1..]));
      assert s == [s[0]] + s[1..];
    }
  }

  /** A scan that starts with `front` finds the same closing quote as one that starts behind it. */
  function Prepend(front: bytes, escaped: bool, r: Scan): Scan {
    match r
    case Unterminated => Unterminated
    case Scanned(raw, e, rest) => Scanned(front + raw, e || escaped, rest)
  }

  lemma PrependTwice(a: bytes, x: bool, b: bytes, y: bool, r: Scan)
    ensures Prepend(a, x, Prepend(b, y, r)) == Prepend(a + b, x || y, r)
  {
    if r.Scanned? {
      assert a + (b + r.raw) == a + b + r.raw;
    }
  }

  lemma ScanPlain(c: byte, t: bytes)
    requires c >= 0x20 && c != BACKSLASH && c != QUOTE
    ensures ScanString([c] + t) == Prepend([c], false, ScanString(t))
  {
    assert ([c] + t)[1..] == t;
  }

  lemma ScanEscape(c: byte, t: bytes)
    ensures ScanString([BACKSLASH, c] + t) == Prepend([BACKSLASH, c], true, ScanString(t))
  {
    assert ([BACKSLASH, c] + t)[2..] == t && ([BACKSLASH, c] + t)[..2] == [BACKSLASH, c];
  }

  lemma {:induction false} ScanPlainRun(h: bytes, t: bytes)
    requires AllPlain(h)
    ensures ScanString(h + t) == Prepend(h, false, ScanString(t))
  {
    if h == [] {
      assert h + t == t;
      var r := ScanString(t);
      if r.Scanned? {
        assert h + r.raw == r.raw;
      }
    } else {
      ScanPlainRun(h[1..], t);
      ScanPlain(h[0], h[1..] + t);
      assert h + t == [h[0]] + (h[1..] + t);
      PrependTwice([h[0]], false, h[1..], false, ScanString(t));
      assert h == [h[0]] + h[1..];
    }
  }

  /** A `\u` escape is passed over as a whole. */
  lemma ScanUnicode(h: bytes, t: bytes)
    requires forall i :: 0 <= i < |h| ==> h[i] >= 0x30 && h[i] != BACKSLASH
    ensures ScanString([BACKSLASH, 117] + h + t) == Prepend([BACKSLASH, 117] + h, true, ScanString(t))
  {
    ScanPlainRun(h, t);
    ScanEscape(117, h + t);
    assert [BACKSLASH, 117] + h + t == [BACKSLASH, 117] + (h + t);
    PrependTwice([BACKSLASH, 117], true, h, false, ScanString(t));
  }

  lemma ScanNonempty(s: bytes)
    requires ScanString(s).Scanned?
    ensures s != []
  {
  }

  /** The bytes a scan passes over first. */
  lemma ScanFront(s: bytes) returns (n: nat)
    requires ScanString(s).Scanned? && s[0] != QUOTE
    ensures 0 < n <= |s| && ScanString(s[n..]).Scanned?
    ensures ScanString(s).raw == s[..n] + ScanString(s[n..]).raw && ScanString(s).rest == ScanString(s[n..]).rest
  {
    n := if s[0] == BACKSLASH then 2 else 1;
    assert s[..1] == [s[0]];
  }

  /** The raw contents are what stands in front of the closing quote. */
  lemma {:induction false} ScanSplits(s: bytes)
    requires ScanString(s).Scanned?
    ensures var r := ScanString(s); s == r.raw + ([QUOTE] + r.rest)
  {
    hide *;
    ScanNonempty(s);
    if s[0] == QUOTE {
      ScanQuote(s[1..]);
      assert s == [QUOTE] + s[1..] == [] + ([QUOTE] + s[1..]);
    } else {
      var n := ScanFront(s);
      ScanSplits(s[n..]);
      Reassemble(s, n, ScanString(s[n..]).raw, ScanString(s[n..]).rest);
    }
  }

  lemma Reassemble(s: bytes, n: nat, raw: bytes, rest: bytes)
    requires n <= |s| && s[n..] == raw + ([QUOTE] + rest)
    ensures s == s[..n] + raw + ([QUOTE] + rest)
  {
    hide *;
    assert s == s[..n] + s[n..];
  }

  predicate IsPlainByte(c: byte) {
    c >= 0x20 && c != BACKSLASH && c != QUOTE
  }

  predicate AllPlain(s: bytes) {
    forall i :: 0 <= i < |s| ==> IsPlainByte(s[i])
  }

  /** Without escapes the contents hold no control character, quote or backslash. */
  lemma {:induction false} ScanUnescaped(s: bytes)
    requires ScanString(s).Scanned? && !ScanString(s).escaped
    ensures AllPlain(ScanString(s).raw)
  {
    if s[0] != QUOTE {
      ScanUnescaped(s[1..]);
    }
  }

  lemma ScanQuote(t: bytes)
    ensures ScanString([QUOTE] + t) == Scanned([], false, t)
  {
    assert ([QUOTE] + t)[1..] == t;
  }

  lemma EscapeByteScans(c: byte, t: bytes)
    ensures ScanString(EscapeByte(c) + t) == Prepend(EscapeByte(c), EscapeByte(c) != [c], ScanString(t))
  {
    var e := EscapeByte(c);
    if |e| == 1 {
      ScanPlain(c, t);
    } else if |e| == 2 {
      ScanEscape(e[1], t);
      assert e == [BACKSLASH, e[1]];
    } else {
      ScanUnicode(e[2..], t);
      assert e == [BACKSLASH, 117] + e[2..];
    }
  }

  /** The closing quote is found behind the escaped text, and an unescaped text stands for itself. */
  lemma {:induction false} EscapeScans(s: bytes, t: bytes)
    ensures var r := ScanString(Escape(s) + ([QUOTE] + t));
            r.Scanned? && r.raw == Escape(s) && r.rest == t && (!r.escaped ==> Escape(s) == s)
  {
    hide ScanString, EscapeByte;
    var q := [QUOTE] + t;
    ScanQuote(t);
    if s == [] {
      assert [] + q == q;
    } else {
      EscapeScans(s[1..], t);
      EscapeByteScans(s[0], Escape(s[1..]) + q);
      assert Escape(s) + q == EscapeByte(s[0]) + (Escape(s[1..]) + q);
      assert s == [s[0]] + s[1..];
    }
  }

  /** readStringBytes gives back every byte string that Encoder.String wrote, whatever follows. */
  lemma QuoteReadsBack(s: bytes, t: bytes)
    ensures ReadString(Quote(s) + t) == Ok(s, t)
  {
    var q := Quote(s) + t;
    assert q[1..] == Escape(s) + ([QUOTE] + t);
    EscapeScans(s, t);
    EscapeUnescapes(s);
    SkipWsStop(q);
  }

  // ---------------------------------------------------------------- escapes by themselves

  /** What the letter behind a backslash stands for (section 7 of RFC 8259). */
  const SHORT_ESCAPES: map<char, byte> :=
    map['"' := 34, '\\' := 92, '/' := 47, 'b' := 8, 'f' := 12, 'n' := 10, 'r' := 13, 't' := 9]

  const LOWER_DIGITS := "0123456789abcdef"
  const UPPER_DIGITS := "0123456789ABCDEF"

  /** `c` is the hexadecimal digit `v` in either case. */
  predicate IsHexDigit(c: byte, v: int) {
    0 <= v < 16 && (c as char == LOWER_DIGITS[v] || c as char == UPPER_DIGITS[v])
  }

  /** `h` spells `r` in four hexadecimal digits of either case. */
  predicate Spells(h: bytes, r: int) {
    && |h| == 4 && 0 <= r < 0x10000
    && IsHexDigit(h[0], r / 16 / 16 / 16) && IsHexDigit(h[1], r / 16 / 16 % 16)
    && IsHexDigit(h[2], r / 16 % 16) && IsHexDigit(h[3], r % 16)
  }

  /** The switch over the letter behind a backslash is the table of short escapes. */
  lemma EscapeExact(c: byte)
    ensures SimpleEscape(c) == if c as char in SHORT_ESCAPES then Some(SHORT_ESCAPES[c as char]) else None
  {
    assert SimpleEscape(c).Some? <==> c as char in SHORT_ESCAPES.Keys;
  }

  lemma HexDigitExact(c: byte, v: int)
    ensures HexValue(c) == Some(v) <==> IsHexDigit(c, v)
  {
  }

  /** Four bytes have a value exactly when they are digits of either case, and it is the number these spell. */
  lemma HexExact(h: bytes, r: int)
    requires |h| == 4
    ensures HexRune(h) == Some(r) <==> Spells(h, r)
  {
    hide HexValue, IsHexDigit;
    HexDigitExact(h[0], r / 16 / 16 / 16);
    HexDigitExact(h[1], r / 16 / 16 % 16);
    HexDigitExact(h[2], r / 16 % 16);
    HexDigitExact(h[3], r % 16);
    var a, b, c, d := HexValue(h[0]), HexValue(h[1]), HexValue(h[2]), HexValue(h[3]);
    if a.Some? && b.Some? && c.Some? && d.Some? {
      Nibbles(a.value, b.value, c.value, d.value, r);
    }
  }

  lemma Nibbles(a: int, b: int, c: int, d: int, r: int)
    requires 0 <= a < 16 && 0 <= b < 16 && 0 <= c < 16 && 0 <= d < 16
    ensures ((a * 16 + b) * 16 + c) * 16 + d == r <==>
            0 <= r < 0x10000 && r / 16 / 16 / 16 == a && r / 16 / 16 % 16 == b && r / 16 % 16 == c && r % 16 == d
  {
    hide *;
    Nibble(a, b);
    Nibble(a * 16 + b, c);
    Nibble((a * 16 + b) * 16 + c, d);
    assert r == r / 16 * 16 + r % 16;
    assert r / 16 == r / 16 / 16 * 16 + r / 16 % 16;
    assert r / 16 / 16 == r / 16 / 16 / 16 * 16 + r / 16 / 16 % 16;
  }

  lemma Nibble(q: int, d: int)
    requires 0 <= d < 16
    ensures (q * 16 + d) / 16 == q && (q * 16 + d) % 16 == d
  {
  }

  /** Decoder for one UTF-8 sequence, written from section 3 of RFC 3629 independently of the encoder. */
  function Utf8Decode(s: bytes): Option<(int, nat)> {
    if s == [] then None
    else if s[0] < 0x80 then Some((s[0], 1))
    else if 0xC2 <= s[0] < 0xE0 && |s| >= 2 && IsTail(s[1]) then Some((Join(s[0], s[1]) - Join(0xC0, 0x80), 2))
    else if 0xE0 <= s[0] < 0xF0 && |s| >= 3 && IsTail(s[1]) && IsTail(s[2]) then
      var r: int := Join(Join(s[0], s[1]), s[2]) - Join(Join(0xE0, 0x80), 0x80);
      if r >= 0x800 && IsScalarValue(r) then Some((r, 3)) else None
    else if 0xF0 <= s[0] < 0xF5 && |s| >= 4 && IsTail(s[1]) && IsTail(s[2]) && IsTail(s[3]) then
      var r: int := Join(Join(Join(s[0], s[1]), s[2]), s[3]) - Join(Join(Join(0xF0, 0x80), 0x80), 0x80);
      if r >= 0x10000 && IsScalarValue(r) then Some((r, 4)) else None
    else None
  }

  function Join(hi: int, lo: int): int {
    hi * 64 + lo
  }

  predicate IsTail(c: byte) {
    0x80 <= c < 0xC0
  }

  lemma Utf8RoundTrip(r: int, t: bytes)
    requires IsScalarValue(r)
    ensures Utf8Decode(Utf8(r) + t) == Some((r, |Utf8(r)|))
  {
    var u := Utf8(r);
    var s := u + t;
    assert forall i :: 0 <= i < |u| ==> s[i] == u[i];
    if r >= 0x10000 {
      assert r / 262144 == r / 4096 / 64;
      assert r / 4096 == r / 64 / 64;
    } else if r >= 0x800 {
      assert r / 4096 == r / 64 / 64;
    }
  }

  /** One `\u` escape of a scalar value outside the surrogates stands for its UTF-8 bytes. */
  lemma UnitEscape(h: bytes, r: int, t: bytes)
    requires Spells(h, r) && IsScalarValue(r)
    ensures Unescape([BACKSLASH, 117] + h + t) ==
            match Unescape(t) case None => None case Some(u) => Some(Utf8(r) + u)
  {
    hide Spells, HexRune, Utf8;
    SpellsFour(h, r);
    HexExact(h, r);
    var s := [BACKSLASH, 117] + h + t;
    assert s[2..6] == h && s[6..] == t;
  }

  lemma SpellsFour(h: bytes, r: int)
    requires Spells(h, r)
    ensures |h| == 4
  {
  }

  /** Every scalar value above U+FFFF is the join of exactly one surrogate pair. */
  lemma SurrogatePairUnique(r: int, hi: int, lo: int)
    requires 0x10000 <= r < 0x110000
    ensures IsHighSurrogate(hi) && IsLowSurrogate(lo) ==>
              (JoinSurrogates(hi, lo) == r <==>
               hi == 0xD800 + (r - 0x10000) / 1024 && lo == 0xDC00 + (r - 0x10000) % 1024)
  {
  }

  /** The parts of a pair of `\u` escapes. */
  lemma PairSlices(h: bytes, l: bytes, t: bytes)
    requires |h| == 4 && |l| == 4
    ensures var s := [BACKSLASH, 117] + h + [BACKSLASH, 117] + l + t;
            && |s| == 12 + |t| && s[0] == BACKSLASH && s[1] == 117 && s[6] == BACKSLASH && s[7] == 117
            && s[2..6] == h && s[8..12] == l && s[12..] == t
  {
    hide *;
    var u: bytes := [BACKSLASH, 117];
    SliceMiddle(u, h, u + l + t);
    SliceMiddle(u + h + u, l, t);
    assert u + h + (u + l + t) == u + h + u + l + t;
    assert (u + l + t)[0] == BACKSLASH && (u + l + t)[1] == 117;
  }

  lemma SliceMiddle(a: bytes, b: bytes, c: bytes)
    ensures (a + b + c)[|a|..|a| + |b|] == b && (a + b + c)[|a| + |b|..] == c
  {
  }

  /** A pair of `\u` escapes stands for the UTF-8 bytes of the scalar value the surrogates join to. */
  lemma PairEscape(h: bytes, l: bytes, r: int, t: bytes)
    requires 0x10000 <= r < 0x110000
    requires Spells(h, 0xD800 + (r - 0x10000) / 1024) && Spells(l, 0xDC00 + (r - 0x10000) % 1024)
    ensures Unescape([BACKSLASH, 117] + h + [BACKSLASH, 117] + l + t) ==
            match Unescape(t) case None => None case Some(u) => Some(Utf8(r) + u)
  {
    hide Spells, HexRune, Utf8, JoinSurrogates;
    var s := [BACKSLASH, 117] + h + [BACKSLASH, 117] + l + t;
    var hi, lo := 0xD800 + (r - 0x10000) / 1024, 0xDC00 + (r - 0x10000) % 1024;
    SpellsFour(h, hi);
    SpellsFour(l, lo);
    HexExact(h, hi);
    HexExact(l, lo);
    PairSlices(h, l, t);
    SurrogatePairUnique(r, hi, lo);
  }

  /** The surrogate `r` in front of `t` is not the first half of a proper pair. */
  ghost predicate IsUnpaired(r: int, t: bytes) {
    || IsLowSurrogate(r)
    || (IsHighSurrogate(r) &&
        (|t| < 6 || t[0] != BACKSLASH || t[1] != 117 || forall lo :: Spells(t[2..6], lo) ==> !IsLowSurrogate(lo)))
  }

  lemma UnpairedStep(h: bytes, r: int, t: bytes)
    requires Spells(h, r) && IsUnpaired(r, t)
    ensures Unescape([BACKSLASH, 117] + h + t) == None
  {
    hide Spells, HexRune, Utf8;
    SpellsFour(h, r);
    HexExact(h, r);
    var s := [BACKSLASH, 117] + h + t;
    assert s[2..6] == h && s[6..] == t;
    if IsHighSurrogate(r) && |t| >= 6 {
      assert s[8..12] == t[2..6] && s[6] == t[0] && s[7] == t[1];
      if HexRune(t[2..6]).Some? {
        HexExact(t[2..6], HexRune(t[2..6]).value);
      }
    }
  }

  /** Cutting off what follows does not pair a surrogate. */
  lemma UnpairedPrefix(r: int, t: bytes, u: bytes)
    requires IsUnpaired(r, t + u)
    ensures IsUnpaired(r, t)
  {
    if |t| >= 6 {
      assert (t + u)[2..6] == t[2..6];
    }
  }
}
