/**
 The grammar of JSON values (sections 2 to 7 of RFC 8259) as a datatype of parse trees, written
 without reference to any reader, and the proof that skipping a value recognises exactly it.

 `TreeTo(t, k)` is the text of `t` followed by `k`; the other `...To` functions are alike.
 */
module Json {
  import opened Bytes
  import opened Text
  import opened Numbers
  import opened Cursor

  // ---------------------------------------------------------------- strings

  /** One character of a string: as it stands, a short escape, a `\u` escape, or a surrogate pair. */
  datatype Char = Plain(c: byte) | Short(c: byte) | Unit(h: bytes, r: int) | Pair(h: bytes, l: bytes, r: int)

  predicate ValidChar(ch: Char) {
    match ch
    case Plain(c) => c >= 0x20 && c != QUOTE && c != BACKSLASH
    case Short(c) => c as char in SHORT_ESCAPES
    case Unit(h, r) => Spells(h, r) && !(0xD800 <= r < 0xE000)
    case Pair(h, l, r) =>
      && 0x10000 <= r < 0x110000
      && Spells(h, 0xD800 + (r - 0x10000) / 1024) && Spells(l, 0xDC00 + (r - 0x10000) % 1024)
  }

  predicate ValidChars(cs: seq<Char>) {
    forall i :: 0 <= i < |cs| ==> ValidChar(cs[i])
  }

  function CharText(ch: Char): bytes {
    match ch
    case Plain(c) => [c]
    case Short(c) => [BACKSLASH, c]
    case Unit(h, _) => [BACKSLASH, 117] + h
    case Pair(h, l, _) => [BACKSLASH, 117] + h + [BACKSLASH, 117] + l
  }

  function CharMeaning(ch: Char): bytes
    requires ValidChar(ch)
  {
    match ch
    case Plain(c) => [c]
    case Short(c) => [SHORT_ESCAPES[c as char]]
    case Unit(_, r) => Utf8(r)
    case Pair(_, _, r) => Utf8(r)
  }

  function CharsText(cs: seq<Char>): bytes {
    if cs == [] then [] else CharText(cs[0]) + CharsText(cs[1..])
  }

  /** The byte string that the contents of a JSON string denote. */
  function Meaning(cs: seq<Char>): bytes
    requires ValidChars(cs)
  {
    if cs == [] then [] else CharMeaning(cs[0]) + Meaning(cs[1..])
  }

  lemma HexIsPlain(h: bytes, r: int)
    requires Spells(h, r)
    ensures |h| == 4 && forall i :: 0 <= i < 4 ==> h[i] >= 0x30 && h[i] != BACKSLASH
  {
    hide Spells;
    SpellsFour(h, r);
    HexExact(h, r);
  }

  lemma CharScans(ch: Char, t: bytes)
    requires ValidChar(ch)
    ensures ScanString(CharText(ch) + t) == Prepend(CharText(ch), !ch.Plain?, ScanString(t))
  {
    match ch
    case Plain(c) => ScanPlain(c, t);
    case Short(c) => ScanEscape(c, t);
    case Unit(h, r) => HexIsPlain(h, r); ScanUnicode(h, t);
    case Pair(h, l, r) => PairScans(h, l, r, t);
  }

  lemma PairScans(h: bytes, l: bytes, r: int, t: bytes)
    requires ValidChar(Pair(h, l, r))
    ensures ScanString(CharText(Pair(h, l, r)) + t) == Prepend(CharText(Pair(h, l, r)), true, ScanString(t))
  {
    hide ScanString, Spells;
    HexIsPlain(h, 0xD800 + (r - 0x10000) / 1024);
    HexIsPlain(l, 0xDC00 + (r - 0x10000) % 1024);
    var a, b := [BACKSLASH, 117] + h, [BACKSLASH, 117] + l;
    ScanUnicode(l, t);
    ScanUnicode(h, b + t);
    PrependTwice(a, true, b, true, ScanString(t));
    assert a + b == CharText(Pair(h, l, r));
    assert CharText(Pair(h, l, r)) + t == a + (b + t);
  }

  lemma CharUnescapes(ch: Char, t: bytes)
    requires ValidChar(ch)
    ensures UnescapeStep(CharText(ch) + t) == Good(CharMeaning(ch), |CharText(ch)|)
    ensures (CharText(ch) + t)[|CharText(ch)|..] == t
  {
    match ch
    case Plain(_) =>
    case Short(c) => EscapeExact(c); assert ([BACKSLASH, c] + t)[2..] == t;
    case Unit(h, r) => UnitUnescapes(h, r, t);
    case Pair(h, l, r) => PairUnescapes(h, l, r, t);
  }

  lemma UnitUnescapes(h: bytes, r: int, t: bytes)
    requires ValidChar(Unit(h, r))
    ensures UnescapeStep(CharText(Unit(h, r)) + t) == Good(Utf8(r), 6)
    ensures (CharText(Unit(h, r)) + t)[6..] == t
  {
    HexExact(h, r);
    var s := [BACKSLASH, 117] + h + t;
    assert s[2..6] == h;
    hide HexRune, Utf8;
  }

  lemma PairUnescapes(h: bytes, l: bytes, r: int, t: bytes)
    requires ValidChar(Pair(h, l, r))
    ensures UnescapeStep(CharText(Pair(h, l, r)) + t) == Good(Utf8(r), 12)
    ensures (CharText(Pair(h, l, r)) + t)[12..] == t
  {
    var hi, lo := Halves(h, l, r);
    hide HexRune, Utf8, JoinSurrogates, Spells;
    PairSlices(h, l, t);
  }

  /** The surrogates that a pair of escapes spells. */
  lemma Halves(h: bytes, l: bytes, r: int) returns (hi: int, lo: int)
    requires ValidChar(Pair(h, l, r))
    ensures |h| == 4 && |l| == 4 && HexRune(h) == Some(hi) && HexRune(l) == Some(lo)
    ensures IsHighSurrogate(hi) && IsLowSurrogate(lo) && JoinSurrogates(hi, lo) == r
  {
    hide HexRune, JoinSurrogates, Spells;
    hi, lo := 0xD800 + (r - 0x10000) / 1024, 0xDC00 + (r - 0x10000) % 1024;
    SpellsFour(h, hi);
    SpellsFour(l, lo);
    HexExact(h, hi);
    HexExact(l, lo);
    SurrogatePairUnique(r, hi, lo);
  }

  /** Two escapes that spell surrogates are a character. */
  lemma HalvesJoin(h: bytes, l: bytes, hi: int, lo: int)
    requires |h| == 4 && |l| == 4 && HexRune(h) == Some(hi) && HexRune(l) == Some(lo)
    requires IsHighSurrogate(hi) && IsLowSurrogate(lo)
    ensures ValidChar(Pair(h, l, JoinSurrogates(hi, lo)))
  {
    hide HexRune, Spells, JoinSurrogates;
    HexExact(h, hi);
    HexExact(l, lo);
    SurrogatePairUnique(JoinSurrogates(hi, lo), hi, lo);
  }

  lemma UnitJoins(h: bytes, r: int)
    requires |h| == 4 && HexRune(h) == Some(r) && !IsHighSurrogate(r) && !IsLowSurrogate(r)
    ensures ValidChar(Unit(h, r))
  {
    hide HexRune, Spells;
    HexExact(h, r);
  }

  lemma {:induction false} CharsUnescape(cs: seq<Char>)
    requires ValidChars(cs)
    ensures Unescape(CharsText(cs)) == Some(Meaning(cs))
  {
    hide UnescapeStep, CharMeaning, CharText, ValidChar;
    if cs != [] {
      CharsUnescape(cs[1..]);
      CharUnescapes(cs[0], CharsText(cs[1..]));
      CharNonempty(cs[0]);
    }
  }

  lemma CharNonempty(ch: Char)
    ensures CharText(ch) != []
  {
  }

  lemma PlainMeaning(ch: Char)
    requires ValidChar(ch) && ch.Plain?
    ensures CharMeaning(ch) == CharText(ch)
  {
  }

  lemma {:induction false} CharsScan(cs: seq<Char>, t: bytes)
    requires ValidChars(cs)
    ensures var r := ScanString(CharsText(cs) + ([QUOTE] + t));
            && r.Scanned? && r.raw == CharsText(cs) && r.rest == t
            && (!r.escaped ==> Meaning(cs) == CharsText(cs))
  {
    hide ScanString, CharText, CharMeaning, ValidChar;
    var q := [QUOTE] + t;
    if cs == [] {
      assert [] + q == q;
      ScanQuote(t);
    } else {
      if cs[0].Plain? {
        PlainMeaning(cs[0]);
      }
      CharsScan(cs[1..], t);
      CharScans(cs[0], CharsText(cs[1..]) + q);
      assert CharsText(cs) + q == CharText(cs[0]) + (CharsText(cs[1..]) + q);
    }
  }

  /** Every grammatical string is read, and as the bytes it denotes. */
  lemma CharsRead(cs: seq<Char>, t: bytes)
    requires ValidChars(cs)
    ensures var r := ScanString(CharsText(cs) + ([QUOTE] + t));
            && r.Scanned? && r.raw == CharsText(cs) && r.rest == t
            && Contents(r.raw, r.escaped) == Some(Meaning(cs))
  {
    hide ScanString, Unescape, Meaning, CharsText;
    CharsUnescape(cs);
    CharsScan(cs, t);
  }

  // ---------------------------------------------------------------- unpaired surrogates

  /** A scan goes on behind grammatical characters as it would from there. */
  lemma {:induction false} CharsScanOn(cs: seq<Char>, t: bytes)
    requires ValidChars(cs)
    ensures var r, q := ScanString(CharsText(cs) + t), ScanString(t);
            && r.Scanned? == q.Scanned?
            && (q.Scanned? ==> r.raw == CharsText(cs) + q.raw && (q.escaped ==> r.escaped))
  {
    hide ScanString, CharText, ValidChar;
    if cs == [] {
      assert CharsText(cs) + t == t;
      assert ScanString(t).Scanned? ==> [] + ScanString(t).raw == ScanString(t).raw;
    } else {
      CharsScanOn(cs[1..], t);
      CharScans(cs[0], CharsText(cs[1..]) + t);
      assert CharsText(cs) + t == CharText(cs[0]) + (CharsText(cs[1..]) + t);
    }
  }

  lemma {:induction false} CharsUnescapeOn(cs: seq<Char>, t: bytes)
    requires ValidChars(cs) && Unescape(t).None?
    ensures Unescape(CharsText(cs) + t).None?
  {
    hide UnescapeStep, CharMeaning, CharText, ValidChar;
    if cs == [] {
      assert CharsText(cs) + t == t;
    } else {
      var rest := CharsText(cs[1..]) + t;
      CharsUnescapeOn(cs[1..], t);
      CharUnescapes(cs[0], rest);
      CharNonempty(cs[0]);
      assert CharsText(cs) + t == CharText(cs[0]) + rest;
    }
  }

  /** A `\u` escape of an unpaired surrogate makes a string refused wherever it stands and whatever follows. */
  lemma UnpairedRefused(w: bytes, cs: seq<Char>, h: bytes, r: int, t: bytes)
    requires AllWs(w) && ValidChars(cs) && Spells(h, r) && IsUnpaired(r, t)
    ensures ReadString(w + ([QUOTE] + (CharsText(cs) + ([BACKSLASH, 117] + h + t)))).Err?
  {
    var u := [BACKSLASH, 117] + h + t;
    var s := [QUOTE] + (CharsText(cs) + u);
    SkipWsOver(w, s);
    SkipWsStop(s);
    assert s[1..] == CharsText(cs) + u;
    hide ScanString, Unescape, CharsText, SkipWs;
    CharsScanOn(cs, u);
    HexIsPlain(h, r);
    ScanUnicode(h, t);
    if ScanString(t).Scanned? {
      var raw := ScanString(t).raw;
      ScanSplits(t);
      UnpairedPrefix(r, raw, [QUOTE] + ScanString(t).rest);
      UnpairedStep(h, r, raw);
      CharsUnescapeOn(cs, [BACKSLASH, 117] + h + raw);
    }
  }

  // ---------------------------------------------------------------- soundness of the characters

  /** The character at the head of a text that UnescapeStep accepts. */
  lemma HeadChar(s: bytes) returns (ch: Char)
    requires s != [] && UnescapeStep(s).Good?
    requires s[0] != QUOTE
    ensures ValidChar(ch) && CharText(ch) == s[..UnescapeStep(s).used]
  {
    hide HexRune, JoinSurrogates, Spells, Utf8, SimpleEscape;
    if s[0] != BACKSLASH {
      ch := Plain(s[0]);
    } else if s[1] != 117 {
      EscapeExact(s[1]);
      ch := Short(s[1]);
    } else {
      var r: int := HexRune(s[2..6]).value;
      if IsHighSurrogate(r) {
        var lo: int := HexRune(s[8..12]).value;
        HalvesJoin(s[2..6], s[8..12], r, lo);
        ch := Pair(s[2..6], s[8..12], JoinSurrogates(r, lo));
      } else {
        UnitJoins(s[2..6], r);
        ch := Unit(s[2..6], r);
      }
    }
  }

  /** Whatever the unescaper accepts is grammatical, provided no bare quote is among it. */
  lemma {:induction false} UnescapeSound(s: bytes, q: bytes) returns (cs: seq<Char>)
    requires Unescape(s).Some?
    requires At(q, QUOTE) && ScanString(s + q).Scanned? && ScanString(s + q).raw == s
    ensures ValidChars(cs) && CharsText(cs) == s
    decreases |s|
  {
    hide ScanString, Unescape, CharText, ValidChar;
    if s == [] {
      cs := [];
    } else {
      NotQuote(s, q);
      var ch, t := UnescapeHead(s);
      HeadScans(s, ch, t, q);
      var tail := UnescapeSound(t, q);
      cs := [ch] + tail;
      assert cs[1..] == tail;
    }
  }

  lemma NotQuote(s: bytes, q: bytes)
    requires s != [] && ScanString(s + q).Scanned? && ScanString(s + q).raw == s
    ensures s[0] != QUOTE
  {
    assert (s + q)[0] == s[0];
  }

  lemma StepUsed(s: bytes)
    requires s != [] && Unescape(s).Some?
    ensures UnescapeStep(s).Good? && 0 < UnescapeStep(s).used <= |s| && Unescape(s[UnescapeStep(s).used..]).Some?
  {
    hide UnescapeStep;
  }

  lemma UnescapeHead(s: bytes) returns (ch: Char, t: bytes)
    requires s != [] && s[0] != QUOTE && Unescape(s).Some?
    ensures ValidChar(ch) && s == CharText(ch) + t && Unescape(t).Some? && |t| < |s|
  {
    hide HexRune, UnescapeStep, CharText, ValidChar;
    ch := HeadChar(s);
    StepUsed(s);
    t := s[UnescapeStep(s).used..];
  }

  lemma HeadScans(s: bytes, ch: Char, t: bytes, q: bytes)
    requires ValidChar(ch) && s == CharText(ch) + t && ScanString(s + q).Scanned? && ScanString(s + q).raw == s
    ensures ScanString(t + q).Scanned? && ScanString(t + q).raw == t
  {
    hide ScanString, ValidChar, CharText;
    CharScans(ch, t + q);
    assert s + q == CharText(ch) + (t + q);
    var r := ScanString(t + q);
    assert CharText(ch) + r.raw == CharText(ch) + t;
    assert r.raw == (CharText(ch) + r.raw)[|CharText(ch)|..];
    assert t == (CharText(ch) + t)[|CharText(ch)|..];
  }

  lemma {:induction false} PlainSound(s: bytes) returns (cs: seq<Char>)
    requires AllPlain(s)
    ensures ValidChars(cs) && CharsText(cs) == s
  {
    hide Spells, Utf8;
    if s == [] {
      cs := [];
    } else {
      var tail := PlainSound(s[1..]);
      cs := [Plain(s[0])] + tail;
      assert cs[1..] == tail;
      assert s == [s[0]] + s[1..];
    }
  }

  // ---------------------------------------------------------------- numbers

  datatype Exponent = Exponent(e: byte, sign: bytes, digits: bytes)
  datatype Numeral = Numeral(neg: bool, whole: bytes, frac: Option<bytes>, exp: Option<Exponent>)

  predicate DigitRun(s: bytes) {
    s != [] && AllDigits(s)
  }

  predicate ValidExponent(e: Exponent) {
    && (e.e == 101 || e.e == 69)
    && (e.sign == [] || e.sign == [PLUS] || e.sign == [MINUS])
    && DigitRun(e.digits)
  }

  predicate ValidNum(n: Numeral) {
    && DigitRun(n.whole) && (|n.whole| > 1 ==> n.whole[0] != ZERO)
    && (n.frac.Some? ==> DigitRun(n.frac.value))
    && (n.exp.Some? ==> ValidExponent(n.exp.value))
  }

  function ExpTo(e: Option<Exponent>, k: bytes): bytes {
    match e case None => k case Some(x) => [x.e] + (x.sign + (x.digits + k))
  }

  function FracTo(f: Option<bytes>, k: bytes): bytes {
    match f case None => k case Some(d) => [DOT] + (d + k)
  }

  function NumTo(n: Numeral, k: bytes): bytes {
    (if n.neg then [MINUS] else []) + (n.whole + FracTo(n.frac, ExpTo(n.exp, k)))
  }

  lemma {:induction false} SkipDigitsOver(d: bytes, k: bytes)
    requires AllDigits(d) && (k == [] || !IsDigit(k[0]))
    ensures SkipDigits(d + k) == k
  {
    if d == [] {
      assert d + k == k;
    } else {
      assert (d + k)[1..] == d[1..] + k;
      SkipDigitsOver(d[1..], k);
    }
  }

  lemma SomeDigitsOver(d: bytes, k: bytes)
    requires DigitRun(d) && (k == [] || !IsDigit(k[0]))
    ensures SomeDigits(d + k) == Some(k)
  {
    assert (d + k)[1..] == d[1..] + k;
    SkipDigitsOver(d[1..], k);
  }

  lemma ExpComplete(e: Exponent, k: bytes)
    requires ValidExponent(e) && Ended(k)
    ensures ExpPart(ExpTo(Some(e), k)) == Some(k)
  {
    var u := e.digits + k;
    SomeDigitsOver(e.digits, k);
    assert ExpTo(Some(e), k)[1..] == e.sign + u;
    assert DropSign(e.sign + u) == u;
  }

  /** Every grammatical number that stands alone or in front of a terminator is one token. */
  lemma NumberComplete(n: Numeral, k: bytes)
    requires ValidNum(n) && Ended(k)
    ensures NumberEnd(NumTo(n, k)) == Some(k)
  {
    hide SkipDigits;
    var e := ExpTo(n.exp, k);
    if n.exp.Some? {
      ExpComplete(n.exp.value, k);
    }
    assert ExpPart(e) == Some(k) && (e == [] || (!IsDigit(e[0]) && e[0] != DOT));
    var f := FracTo(n.frac, e);
    FracComplete(n.frac, e);
    var t := n.whole + f;
    WholeComplete(n.whole, f);
    assert NumTo(n, k) == if n.neg then [MINUS] + t else t;
    assert n.neg ==> NumTo(n, k)[1..] == t;
  }

  lemma FracComplete(d: Option<bytes>, e: bytes)
    requires d.Some? ==> DigitRun(d.value)
    requires e == [] || (!IsDigit(e[0]) && e[0] != DOT)
    ensures FracPart(FracTo(d, e)) == Some(e) && (FracTo(d, e) == [] || !IsDigit(FracTo(d, e)[0]))
  {
    if d.Some? {
      SomeDigitsOver(d.value, e);
      assert FracTo(d, e)[1..] == d.value + e;
    }
  }

  lemma WholeComplete(d: bytes, f: bytes)
    requires DigitRun(d) && (|d| > 1 ==> d[0] != ZERO)
    requires f == [] || !IsDigit(f[0])
    ensures IntPart(d + f) == Some(f)
  {
    assert (d + f)[1..] == d[1..] + f;
    if |d| == 1 {
      assert d[1..] + f == f;
    }
    SkipDigitsOver(d[1..], f);
  }

  lemma {:induction false} SkipDigitsSound(s: bytes) returns (d: bytes)
    ensures AllDigits(d) && s == d + SkipDigits(s)
  {
    if s != [] && IsDigit(s[0]) {
      d := SkipDigitsSound(s[1..]);
      assert s == [s[0]] + (d + SkipDigits(s)) == [s[0]] + d + SkipDigits(s);
      d := [s[0]] + d;
    } else {
      d := [];
    }
  }

  lemma SomeDigitsSound(s: bytes) returns (d: bytes)
    requires SomeDigits(s).Some?
    ensures DigitRun(d) && s == d + SomeDigits(s).value && d[0] == s[0]
  {
    d := SkipDigitsSound(s[1..]);
    assert s == [s[0]] + (d + SomeDigits(s).value) == [s[0]] + d + SomeDigits(s).value;
    d := [s[0]] + d;
  }

  lemma ExpSound(s: bytes) returns (e: Option<Exponent>)
    requires ExpPart(s).Some?
    ensures (e.Some? ==> ValidExponent(e.value)) && s == ExpTo(e, ExpPart(s).value)
  {
    if AtExp(s) {
      var u := DropSign(s[1..]);
      var d := SomeDigitsSound(u);
      var sign := s[1..][..|s| - 1 - |u|];
      assert s[1..] == sign + u;
      assert s == [s[0]] + s[1..];
      e := Some(Exponent(s[0], sign, d));
    } else {
      e := None;
    }
  }

  lemma FracSound(s: bytes) returns (d: Option<bytes>)
    requires FracPart(s).Some?
    ensures (d.Some? ==> DigitRun(d.value)) && s == FracTo(d, FracPart(s).value)
  {
    if At(s, DOT) {
      var f := SomeDigitsSound(s[1..]);
      assert s == [DOT] + s[1..];
      d := Some(f);
    } else {
      d := None;
    }
  }

  lemma WholeSound(s: bytes) returns (d: bytes)
    requires IntPart(s).Some?
    ensures DigitRun(d) && (|d| > 1 ==> d[0] != ZERO) && s == d + IntPart(s).value
  {
    if s[0] == ZERO {
      d := [ZERO];
      assert s == [ZERO] + s[1..];
    } else {
      d := SomeDigitsSound(s);
    }
  }

  /** Every token the reader accepts is a grammatical number. */
  lemma NumberSound(s: bytes) returns (n: Numeral)
    requires NumberEnd(s).Some?
    ensures ValidNum(n) && NumTo(n, NumberEnd(s).value) == s
  {
    hide SomeDigits, SkipDigits, ExpTo, FracTo;
    var t := if At(s, MINUS) then s[1..] else s;
    var whole := WholeSound(t);
    var f := IntPart(t).value;
    var frac := FracSound(f);
    var exp := ExpSound(FracPart(f).value);
    n := Numeral(At(s, MINUS), whole, frac, exp);
    assert At(s, MINUS) ==> s == [MINUS] + t;
    assert [] + t == t;
  }

  // ---------------------------------------------------------------- values

  datatype Tree =
    | Lit(text: bytes)
    | Number(num: Numeral)
    | Str(chars: seq<Char>)
    | EmptyArr(ws: bytes)
    | Arr(elems: Elems)
    | EmptyObj(ws: bytes)
    | Obj(members: Members)

  datatype Elems =
    | LastElem(pre: bytes, v: Tree, post: bytes)
    | MoreElems(pre: bytes, v: Tree, post: bytes, tail: Elems)

  datatype Members =
    | LastMember(head: MemberKey, pre: bytes, v: Tree, post: bytes)
    | MoreMembers(head: MemberKey, pre: bytes, v: Tree, post: bytes, tail: Members)

  /** A key with the white space before it and before the colon. */
  datatype MemberKey = MemberKey(pre: bytes, key: seq<Char>, post: bytes)

  function StringTo(cs: seq<Char>, k: bytes): bytes {
    [QUOTE] + (CharsText(cs) + ([QUOTE] + k))
  }

  function KeyTo(m: MemberKey, k: bytes): bytes {
    m.pre + StringTo(m.key, m.post + ([COLON] + k))
  }

  function TreeTo(t: Tree, k: bytes): bytes
    decreases t
  {
    match t
    case Lit(text) => text + k
    case Number(n) => NumTo(n, k)
    case Str(cs) => StringTo(cs, k)
    case EmptyArr(ws) => [LBRACKET] + (ws + ([RBRACKET] + k))
    case Arr(elems) => [LBRACKET] + ElemsTo(elems, [RBRACKET] + k)
    case EmptyObj(ws) => [LBRACE] + (ws + ([RBRACE] + k))
    case Obj(members) => [LBRACE] + MembersTo(members, [RBRACE] + k)
  }

  function ElemsTo(e: Elems, k: bytes): bytes
    decreases e
  {
    match e
    case LastElem(pre, v, post) => pre + TreeTo(v, post + k)
    case MoreElems(pre, v, post, tail) => pre + TreeTo(v, post + ([COMMA] + ElemsTo(tail, k)))
  }

  function MembersTo(m: Members, k: bytes): bytes
    decreases m
  {
    match m
    case LastMember(head, pre, v, post) => KeyTo(head, pre + TreeTo(v, post + k))
    case MoreMembers(head, pre, v, post, tail) => KeyTo(head, pre + TreeTo(v, post + ([COMMA] + MembersTo(tail, k))))
  }

  predicate Valid(t: Tree)
    decreases t
  {
    match t
    case Lit(text) => text == TRUE || text == FALSE || text == NULL
    case Number(n) => ValidNum(n)
    case Str(cs) => ValidChars(cs)
    case EmptyArr(ws) => AllWs(ws)
    case Arr(elems) => ValidElems(elems)
    case EmptyObj(ws) => AllWs(ws)
    case Obj(members) => ValidMembers(members)
  }

  predicate ValidElems(e: Elems)
    decreases e
  {
    AllWs(e.pre) && Valid(e.v) && AllWs(e.post) && (e.MoreElems? ==> ValidElems(e.tail))
  }

  predicate ValidMembers(m: Members)
    decreases m
  {
    && AllWs(m.head.pre) && ValidChars(m.head.key) && AllWs(m.head.post)
    && AllWs(m.pre) && Valid(m.v) && AllWs(m.post)
    && (m.MoreMembers? ==> ValidMembers(m.tail))
  }

  /** How deep objects and arrays nest. */
  function Height(t: Tree): nat
    decreases t
  {
    match t
    case Lit(_) => 0
    case Number(_) => 0
    case Str(_) => 0
    case EmptyArr(_) => 1
    case Arr(elems) => 1 + ElemsHeight(elems)
    case EmptyObj(_) => 1
    case Obj(members) => 1 + MembersHeight(members)
  }

  function ElemsHeight(e: Elems): nat
    decreases e
  {
    match e
    case LastElem(_, v, _) => Height(v)
    case MoreElems(_, v, _, tail) => Max(Height(v), ElemsHeight(tail))
  }

  function MembersHeight(m: Members): nat
    decreases m
  {
    match m
    case LastMember(_, _, v, _) => Height(v)
    case MoreMembers(_, _, v, _, tail) => Max(Height(v), MembersHeight(tail))
  }

  /** Literals and numbers have no closing delimiter, so an end has to follow them. */
  predicate NeedsEnd(t: Tree) {
    t.Lit? || t.Number?
  }

  /** Opening another object or array is refused when it would be the 101st around its contents. */
  predicate FitsDepth(t: Tree, depth: nat) {
    Height(t) == 0 || depth + Height(t) <= MAX_DEPTH
  }

  ghost predicate Parses(s: bytes, w: bytes, t: Tree, rest: bytes, depth: nat) {
    && AllWs(w) && Valid(t) && FitsDepth(t, depth)
    && (NeedsEnd(t) ==> Ended(rest))
    && s == w + TreeTo(t, rest)
  }

  /** `s` is white space, then exactly one JSON value nested no deeper than allowed, then `rest`. */
  ghost predicate IsValue(s: bytes, rest: bytes, depth: nat) {
    exists w, t :: Parses(s, w, t, rest, depth)
  }

  // ---------------------------------------------------------------- soundness

  lemma StringSound(s: bytes) returns (w: bytes, cs: seq<Char>)
    requires ReadString(s).Ok?
    ensures AllWs(w) && ValidChars(cs) && s == w + StringTo(cs, ReadString(s).rest)
    ensures !IsWs(s[0]) ==> w == []
    ensures Meaning(cs) == ReadString(s).value
  {
    hide ScanString, Contents, Meaning, CharsText, ValidChars;
    SkipWsSplit(s);
    var t := SkipWs(s);
    w := s[..|s| - |t|];
    cs := ContentsSound(t[1..]);
    assert t == [QUOTE] + t[1..];
  }

  lemma ContentsSound(s: bytes) returns (cs: seq<Char>)
    requires ScanString(s).Scanned? && Contents(ScanString(s).raw, ScanString(s).escaped).Some?
    ensures ValidChars(cs) && CharsText(cs) == ScanString(s).raw && s == CharsText(cs) + ([QUOTE] + ScanString(s).rest)
    ensures Some(Meaning(cs)) == Contents(ScanString(s).raw, ScanString(s).escaped)
  {
    hide ScanString, Unescape, CharsText, Meaning;
    var r := ScanString(s);
    ScanSplits(s);
    if r.escaped {
      cs := UnescapeSound(r.raw, [QUOTE] + r.rest);
    } else {
      ScanUnescaped(s);
      cs := PlainSound(r.raw);
    }
    CharsRead(cs, r.rest);
  }

  lemma ScalarSound(s: bytes) returns (t: Tree)
    requires SkipScalar(s).Some?
    ensures NeedsEnd(t) && Valid(t) && Height(t) == 0 && s == TreeTo(t, SkipScalar(s).value) && Ended(SkipScalar(s).value)
  {
    var c := TakeToken(s);
    assert s == c + s[|c|..];
    if c == TRUE || c == FALSE || c == NULL {
      t := Lit(c);
    } else {
      var n := NumberSound(c);
      t := Tree.Number(n);
      NumToAppend(n, s[|c|..]);
    }
  }

  lemma NumToAppend(n: Numeral, k: bytes)
    ensures NumTo(n, []) + k == NumTo(n, k)
  {
    var e := ExpTo(n.exp, []);
    if n.exp.Some? {
      var x := n.exp.value;
      assert e + k == [x.e] + (x.sign + (x.digits + k));
    }
    assert e + k == ExpTo(n.exp, k);
    var f := FracTo(n.frac, e);
    if n.frac.Some? {
      assert f + k == [DOT] + (n.frac.value + (e + k));
    }
    assert f + k == FracTo(n.frac, ExpTo(n.exp, k));
    assert NumTo(n, []) + k == (if n.neg then [MINUS] else []) + (n.whole + (f + k));
  }

  lemma {:induction false} SkipSound(s: bytes, depth: nat) returns (w: bytes, t: Tree)
    requires SkipValue(s, depth).Some?
    ensures Parses(s, w, t, SkipValue(s, depth).value, depth)
    ensures !IsWs(s[0]) ==> w == []
    decreases |s|, 0
  {
    hide SkipMembers, SkipElems, SkipScalar, MembersTo, ElemsTo, NumTo, StringTo, ReadString, ValidMembers, ValidElems, ValidNum, ValidChars;
    SkipWsSplit(s);
    var u := SkipWs(s);
    w := s[..|s| - |u|];
    if u[0] == LBRACE {
      var pre, members := MembersSound(u[1..], true, depth + 1);
      t := if members.None? then EmptyObj(pre) else Obj(members.value);
      assert u == [LBRACE] + u[1..];
    } else if u[0] == LBRACKET {
      var pre, elems := ElemsSound(u[1..], true, depth + 1);
      t := if elems.None? then EmptyArr(pre) else Arr(elems.value);
      assert u == [LBRACKET] + u[1..];
    } else if u[0] == QUOTE {
      var w', cs := StringSound(s);
      w, t := w', Str(cs);
    } else {
      t := ScalarSound(u);
    }
  }

  /** The text of the members still to come, when one has already been read and when not. */
  function MoreTo(first: bool, m: Members, k: bytes): bytes {
    if first then MembersTo(m, k) else [COMMA] + MembersTo(m, k)
  }

  /** The white space, key and colon that NextObjectKey consumes behind the separator `u`. */
  lemma KeySound(u: bytes) returns (key: seq<Char>, post: bytes)
    requires AfterColon(ReadKeyFast(u)).Key? && !IsWs(u[0])
    ensures ValidChars(key) && AllWs(post)
    ensures u == StringTo(key, post + ([COLON] + AfterColon(ReadKeyFast(u)).rest))
  {
    hide ReadKeyFast, ReadString, StringTo, ValidChars;
    KeyFastIsReadString(u);
    var w, cs := StringSound(u);
    key := cs;
    var c := ReadString(u).rest;
    SkipWsSplit(c);
    var colon := SkipWs(c);
    post := c[..|c| - |colon|];
    assert colon == [COLON] + colon[1..];
    assert [] + StringTo(key, c) == StringTo(key, c);
  }

  /** The white space and comma in front of `u`. */
  lemma SeparatorSound(s: bytes, first: bool) returns (w: bytes, before: bytes)
    requires Separator(SkipWs(s), first).Some?
    ensures AllWs(w) && AllWs(before) && (first ==> w == [])
    ensures var u := Separator(SkipWs(s), first).value;
            (u == [] || !IsWs(u[0])) && s == w + (if first then before + u else [COMMA] + (before + u))
  {
    SkipWsSplit(s);
    var t := SkipWs(s);
    w := s[..|s| - |t|];
    if first {
      before, w := w, [];
    } else {
      SkipWsSplit(t[1..]);
      before := t[1..][..|t| - 1 - |SkipWs(t[1..])|];
      assert t == [COMMA] + t[1..];
    }
  }

  /** The first turn of the object loop in front of a key. */
  lemma KeyTurn(s: bytes, first: bool, depth: nat)
    requires SkipMembers(s, first, depth).Some? && !At(SkipWs(s), RBRACE)
    ensures Separator(SkipWs(s), first).Some?
    ensures var u := Separator(SkipWs(s), first).value;
            && u != [] && AfterColon(ReadKeyFast(u)).Key?
            && var v := AfterColon(ReadKeyFast(u)).rest;
               SkipValue(v, depth).Some? && |v| < |s| && |SkipValue(v, depth).value| < |s| &&
               SkipMembers(s, first, depth) == SkipMembers(SkipValue(v, depth).value, false, depth)
  {
    hide Separator, ReadKeyFast;
  }

  /** The text of a member and what comes behind it. */
  lemma MembersJoin(first: bool, head: MemberKey, pre: bytes, tree: Tree, post: bytes, tail: Option<Members>, close: bytes)
    ensures var m := if tail.None? then LastMember(head, pre, tree, post) else MoreMembers(head, pre, tree, post, tail.value);
            var rest := if tail.None? then close else MoreTo(false, tail.value, close);
            var text := head.pre + StringTo(head.key, head.post + ([COLON] + (pre + TreeTo(tree, post + rest))));
            MoreTo(first, m, close) == if first then text else [COMMA] + text
  {
  }

  lemma FirstMembers(first: bool, m: Members, close: bytes)
    ensures first ==> MoreTo(first, m, close) == MembersTo(m, close) && [] + MoreTo(first, m, close) == MoreTo(first, m, close)
  {
  }

  lemma {:induction false} MembersSound(s: bytes, first: bool, depth: nat) returns (w: bytes, m: Option<Members>)
    requires SkipMembers(s, first, depth).Some? && depth <= MAX_DEPTH
    ensures AllWs(w)
    ensures m.None? ==> s == w + ([RBRACE] + SkipMembers(s, first, depth).value)
    ensures m.Some? ==> s == w + MoreTo(first, m.value, [RBRACE] + SkipMembers(s, first, depth).value)
    ensures m.Some? && first ==> s == MembersTo(m.value, [RBRACE] + SkipMembers(s, first, depth).value)
    ensures m.Some? ==> ValidMembers(m.value) && depth + MembersHeight(m.value) <= MAX_DEPTH
    decreases |s|, 1
  {
    hide AfterColon, ReadKeyFast, SkipValue, StringTo, ValidChars, TreeTo, Valid, Height, Separator, SkipWs;
    var t := SkipWs(s);
    if At(t, RBRACE) {
      SkipWsSplit(s);
      w, m := s[..|s| - |t|], None;
      assert t == [RBRACE] + t[1..];
    } else {
      KeyTurn(s, first, depth);
      hide SkipMembers, MembersTo, MoreTo, AllWs;
      var w', before := SeparatorSound(s, first);
      w := w';
      var u := Separator(t, first).value;
      var v := AfterColon(ReadKeyFast(u)).rest;
      var key, beforeColon := KeySound(u);
      var pre, tree := SkipSound(v, depth);
      var post, tail := MembersSound(SkipValue(v, depth).value, false, depth);
      var head := MemberKey(before, key, beforeColon);
      m := Some(if tail.None? then LastMember(head, pre, tree, post) else MoreMembers(head, pre, tree, post, tail.value));
      var close := [RBRACE] + SkipMembers(s, first, depth).value;
      MembersJoin(first, head, pre, tree, post, tail, close);
      FirstMembers(first, m.value, close);
    }
  }

  function MoreElemsTo(first: bool, e: Elems, k: bytes): bytes {
    if first then ElemsTo(e, k) else [COMMA] + ElemsTo(e, k)
  }

  /** The first turn of the array loop in front of an element. */
  lemma ElemTurn(s: bytes, first: bool, depth: nat)
    requires SkipElems(s, first, depth).Some? && !At(SkipWs(s), RBRACKET)
    ensures Separator(SkipWs(s), first).Some?
    ensures var u := Separator(SkipWs(s), first).value;
            SkipValue(u, depth).Some? && |u| <= |s| && |SkipValue(u, depth).value| < |s| &&
            SkipElems(s, first, depth) == SkipElems(SkipValue(u, depth).value, false, depth)
    ensures var u := Separator(SkipWs(s), first).value; u != []
  {
    hide Separator;
  }

  /** The text of an element and what comes behind it. */
  lemma ElemsJoin(first: bool, before: bytes, tree: Tree, post: bytes, tail: Option<Elems>, close: bytes)
    ensures var e := if tail.None? then LastElem(before, tree, post) else MoreElems(before, tree, post, tail.value);
            var rest := if tail.None? then close else MoreElemsTo(false, tail.value, close);
            MoreElemsTo(first, e, close) ==
            if first then before + TreeTo(tree, post + rest) else [COMMA] + (before + TreeTo(tree, post + rest))
  {
  }

  lemma {:induction false} ElemsSound(s: bytes, first: bool, depth: nat) returns (w: bytes, e: Option<Elems>)
    requires SkipElems(s, first, depth).Some? && depth <= MAX_DEPTH
    ensures AllWs(w)
    ensures e.None? ==> s == w + ([RBRACKET] + SkipElems(s, first, depth).value)
    ensures e.Some? ==> s == w + MoreElemsTo(first, e.value, [RBRACKET] + SkipElems(s, first, depth).value)
    ensures e.Some? && first ==> s == ElemsTo(e.value, [RBRACKET] + SkipElems(s, first, depth).value)
    ensures e.Some? ==> ValidElems(e.value) && depth + ElemsHeight(e.value) <= MAX_DEPTH
    decreases |s|, 1
  {
    hide SkipValue, TreeTo, Valid, Height, Separator, SkipWs;
    var t := SkipWs(s);
    if At(t, RBRACKET) {
      SkipWsSplit(s);
      w, e := s[..|s| - |t|], None;
      assert t == [RBRACKET] + t[1..];
    } else {
      ElemTurn(s, first, depth);
      hide SkipElems, ElemsTo, MoreElemsTo, AllWs;
      var w', before := SeparatorSound(s, first);
      w := w';
      var u := Separator(t, first).value;
      var pre, tree := SkipSound(u, depth);
      var rest := SkipValue(u, depth).value;
      NoWs(pre, TreeTo(tree, rest));
      var post, tail := ElemsSound(rest, false, depth);
      e := Some(if tail.None? then LastElem(before, tree, post) else MoreElems(before, tree, post, tail.value));
      var close := [RBRACKET] + SkipElems(s, first, depth).value;
      ElemsJoin(first, before, tree, post, tail, close);
      FirstElems(first, e.value, close);
    }
  }

  lemma NoWs(pre: bytes, s: bytes)
    ensures pre == [] ==> pre + s == s
  {
  }

  lemma FirstElems(first: bool, e: Elems, close: bytes)
    ensures first ==> MoreElemsTo(first, e, close) == ElemsTo(e, close) && [] + MoreElemsTo(first, e, close) == MoreElemsTo(first, e, close)
  {
  }

  // ---------------------------------------------------------------- completeness

  lemma StringComplete(w: bytes, cs: seq<Char>, k: bytes)
    requires AllWs(w) && ValidChars(cs)
    ensures ReadString(w + StringTo(cs, k)) == Ok(Meaning(cs), k)
  {
    SkipWsOver(w, StringTo(cs, k));
    SkipWsStop(StringTo(cs, k));
    CharsRead(cs, k);
    assert StringTo(cs, k)[1..] == CharsText(cs) + ([QUOTE] + k);
  }

  lemma {:induction false} TakeTokenOver(c: bytes, k: bytes)
    requires Ended(k) && forall i :: 0 <= i < |c| ==> !IsTerminator(c[i])
    ensures TakeToken(c + k) == c && (c + k)[|c|..] == k
  {
    if c == [] {
      assert c + k == k;
    } else {
      assert (c + k)[1..] == c[1..] + k;
      TakeTokenOver(c[1..], k);
    }
  }

  lemma NumIsPlain(n: Numeral)
    requires ValidNum(n)
    ensures var c := NumTo(n, []); c != [] && forall i :: 0 <= i < |c| ==> !IsTerminator(c[i]) && c[i] != LBRACE && c[i] != LBRACKET && c[i] != QUOTE
  {
    var e := ExpTo(n.exp, []);
    assert forall i :: 0 <= i < |e| ==> IsDigit(e[i]) || e[i] == 101 || e[i] == 69 || e[i] == PLUS || e[i] == MINUS;
    var f := FracTo(n.frac, e);
    assert forall i :: 0 <= i < |f| ==> IsDigit(f[i]) || f[i] == 101 || f[i] == 69 || f[i] == PLUS || f[i] == MINUS || f[i] == DOT;
  }

  lemma ScalarComplete(t: Tree, k: bytes)
    requires NeedsEnd(t) && Valid(t) && Ended(k)
    ensures var s := TreeTo(t, k); SkipScalar(s) == Some(k) && !IsWs(s[0]) && s[0] != LBRACE && s[0] != LBRACKET && s[0] != QUOTE
  {
    var c := TreeTo(t, []);
    if t.Number? {
      NumToAppend(t.num, k);
      NumIsPlain(t.num);
      NumberComplete(t.num, []);
    } else {
      assert c == t.text;
    }
    assert TreeTo(t, k) == c + k;
    TakeTokenOver(c, k);
  }

  lemma TreeHead(t: Tree, k: bytes)
    requires Valid(t)
    ensures var s := TreeTo(t, k);
            s != [] && !IsWs(s[0]) && s[0] != RBRACE && s[0] != RBRACKET && s[0] != COMMA
  {
    if t.Number? {
      NumToAppend(t.num, k);
      NumIsPlain(t.num);
    }
  }

  /** A member's key is found behind its separator. */
  lemma KeyComplete(first: bool, m: MemberKey, value: bytes)
    requires AllWs(m.pre) && ValidChars(m.key) && AllWs(m.post)
    ensures NextKey(if first then KeyTo(m, value) else [COMMA] + KeyTo(m, value), first) == Key(Meaning(m.key), value)
  {
    var afterKey := m.post + ([COLON] + value);
    var u := StringTo(m.key, afterKey);
    SkipWsOver(m.pre, u);
    SkipWsStop(u);
    if !first {
      SkipWsStop([COMMA] + KeyTo(m, value));
      assert ([COMMA] + KeyTo(m, value))[1..] == KeyTo(m, value);
    }
    StringComplete([], m.key, afterKey);
    assert [] + u == u;
    KeyFastIsReadString(u);
    SkipWsOver(m.post, [COLON] + value);
    assert ([COLON] + value)[1..] == value;
  }

  lemma EndedTail(post: bytes, more: bytes)
    requires AllWs(post) && Ended(more)
    ensures Ended(post + more)
  {
    if post == [] {
      assert post + more == more;
    } else {
      assert (post + more)[0] == post[0];
    }
  }

  lemma BeginIs(w: bytes, u: bytes, open: byte, depth: nat)
    requires AllWs(w) && u != [] && !IsWs(u[0])
    ensures Begin(w + u, open, depth) == if u[0] == open && depth + 1 <= MAX_DEPTH then Some(u[1..]) else None
  {
    SkipWsOver(w, u);
    SkipWsStop(u);
  }

  /** What an element step finds in front of a printed element. */
  lemma ElemIs(w: bytes, first: bool, e: Elems, k: bytes)
    requires AllWs(w) && ValidElems(e)
    ensures NextElem(w + MoreElemsTo(first, e, k), first) ==
            Element(TreeTo(e.v, e.post + (if e.MoreElems? then MoreElemsTo(false, e.tail, k) else k)))
  {
    var more := if e.MoreElems? then MoreElemsTo(false, e.tail, k) else k;
    var v := TreeTo(e.v, e.post + more);
    var body := e.pre + v;
    assert Valid(e.v) && AllWs(e.pre);
    assert MoreElemsTo(first, e, k) == if first then body else [COMMA] + body;
    hide TreeTo, ElemsTo, MoreElemsTo, Valid, ValidElems;
    TreeHead(e.v, e.post + more);
    SkipWsOver(e.pre, v);
    SkipWsStop(v);
    SkipWsOver(w, if first then body else [COMMA] + body);
    SkipWsStop([COMMA] + body);
    assert ([COMMA] + body)[1..] == body;
  }

  lemma CloseIs(w: bytes, k: bytes, first: bool)
    requires AllWs(w)
    ensures NextElem(w + ([RBRACKET] + k), first) == EndArray(k)
    ensures NextKey(w + ([RBRACE] + k), first) == EndObject(k)
  {
    SkipWsOver(w, [RBRACKET] + k);
    SkipWsOver(w, [RBRACE] + k);
    assert ([RBRACKET] + k)[1..] == k && ([RBRACE] + k)[1..] == k;
  }

  lemma KeyIs(w: bytes, first: bool, ms: Members, k: bytes)
    requires AllWs(w) && ValidMembers(ms)
    ensures NextKey(w + MoreTo(first, ms, k), first) ==
            Key(Meaning(ms.head.key), ms.pre + TreeTo(ms.v, ms.post + (if ms.MoreMembers? then MoreTo(false, ms.tail, k) else k)))
  {
    var more := if ms.MoreMembers? then MoreTo(false, ms.tail, k) else k;
    var value := ms.pre + TreeTo(ms.v, ms.post + more);
    var body := KeyTo(ms.head, value);
    assert MoreTo(first, ms, k) == if first then body else [COMMA] + body;
    assert AllWs(ms.head.pre) && ValidChars(ms.head.key) && AllWs(ms.head.post);
    hide TreeTo, MembersTo, MoreTo, KeyTo, ValidMembers;
    KeyComplete(first, ms.head, value);
    SkipWsOver(w, if first then body else [COMMA] + body);
  }

  /** What SkipValue does is decided by the first byte behind the white space. */
  lemma HeadSkip(w: bytes, u: bytes, depth: nat)
    requires AllWs(w) && u != [] && !IsWs(u[0])
    ensures u[0] == LBRACE ==> SkipValue(w + u, depth) == if depth + 1 <= MAX_DEPTH then SkipMembers(u[1..], true, depth + 1) else None
    ensures u[0] == LBRACKET ==> SkipValue(w + u, depth) == if depth + 1 <= MAX_DEPTH then SkipElems(u[1..], true, depth + 1) else None
    ensures u[0] == QUOTE ==> SkipValue(w + u, depth) == if ReadString(w + u).Ok? then Some(ReadString(w + u).rest) else None
    ensures u[0] != LBRACE && u[0] != LBRACKET && u[0] != QUOTE ==> SkipValue(w + u, depth) == SkipScalar(u)
  {
    hide SkipMembers, SkipElems, ReadString, SkipScalar;
    SkipWsOver(w, u);
    SkipWsStop(u);
  }

  /** Strings, arrays and objects by their first byte and what follows it. */
  lemma TreeShape(t: Tree, k: bytes)
    requires Valid(t)
    ensures var u := TreeTo(t, k);
            && u != []
            && (t.Str? ==> u[0] == QUOTE && u == StringTo(t.chars, k))
            && (t.EmptyArr? ==> u[0] == LBRACKET && u[1..] == t.ws + ([RBRACKET] + k))
            && (t.EmptyObj? ==> u[0] == LBRACE && u[1..] == t.ws + ([RBRACE] + k))
            && (t.Arr? ==> u[0] == LBRACKET && u[1..] == [] + MoreElemsTo(true, t.elems, [RBRACKET] + k))
            && (t.Obj? ==> u[0] == LBRACE && u[1..] == [] + MoreTo(true, t.members, [RBRACE] + k))
  {
    TreeHead(t, k);
  }

  lemma HeightNests(t: Tree, depth: nat)
    ensures t.Arr? ==> (FitsDepth(t, depth) <==> depth + 1 + ElemsHeight(t.elems) <= MAX_DEPTH)
    ensures t.Obj? ==> (FitsDepth(t, depth) <==> depth + 1 + MembersHeight(t.members) <= MAX_DEPTH)
    ensures t.EmptyArr? || t.EmptyObj? ==> (FitsDepth(t, depth) <==> depth + 1 <= MAX_DEPTH)
    ensures t.Lit? || t.Number? || t.Str? ==> FitsDepth(t, depth)
    ensures NeedsEnd(t) <==> t.Lit? || t.Number?
  {
  }

  lemma Inside(t: Tree)
    requires Valid(t)
    ensures t.Str? ==> ValidChars(t.chars)
    ensures t.EmptyArr? || t.EmptyObj? ==> AllWs(t.ws)
    ensures t.Arr? ==> ValidElems(t.elems)
    ensures t.Obj? ==> ValidMembers(t.members)
    ensures AllWs([])
  {
  }

  lemma FlatDecides(w: bytes, t: Tree, k: bytes, depth: nat)
    requires AllWs(w) && Valid(t) && (NeedsEnd(t) ==> Ended(k)) && !t.Arr? && !t.Obj?
    ensures SkipValue(w + TreeTo(t, k), depth) == if FitsDepth(t, depth) then Some(k) else None
  {
    hide *;
    TreeHead(t, k);
    HeadSkip(w, TreeTo(t, k), depth);
    TreeShape(t, k);
    HeightNests(t, depth);
    Inside(t);
    match t
    case Lit(_) => ScalarComplete(t, k);
    case Number(_) => ScalarComplete(t, k);
    case Str(cs) => StringComplete(w, cs, k);
    case EmptyArr(ws) => EmptySkips(ws, k, depth + 1);
    case EmptyObj(ws) => EmptySkips(ws, k, depth + 1);
  }

  /** A grammatical value is skipped as a whole when it does not nest too deep, and refused otherwise. */
  lemma {:induction false} SkipDecides(w: bytes, t: Tree, k: bytes, depth: nat)
    requires AllWs(w) && Valid(t) && (NeedsEnd(t) ==> Ended(k))
    ensures SkipValue(w + TreeTo(t, k), depth) == if FitsDepth(t, depth) then Some(k) else None
    decreases t, 0
  {
    hide *;
    if t.Arr? || t.Obj? {
      TreeHead(t, k);
      HeadSkip(w, TreeTo(t, k), depth);
      TreeShape(t, k);
      HeightNests(t, depth);
      Inside(t);
      if depth + 1 <= MAX_DEPTH {
        if t.Arr? {
          ElemsDecide([], true, t.elems, k, depth + 1);
        } else {
          MembersDecide([], true, t.members, k, depth + 1);
        }
      }
    } else {
      FlatDecides(w, t, k, depth);
    }
  }

  lemma EmptySkips(ws: bytes, k: bytes, depth: nat)
    requires AllWs(ws)
    ensures SkipElems(ws + ([RBRACKET] + k), true, depth) == Some(k) && SkipMembers(ws + ([RBRACE] + k), true, depth) == Some(k)
  {
    CloseIs(ws, k, true);
  }

  lemma {:induction false} ElemsDecide(w: bytes, first: bool, e: Elems, k: bytes, depth: nat)
    requires AllWs(w) && ValidElems(e) && depth <= MAX_DEPTH
    ensures SkipElems(w + MoreElemsTo(first, e, [RBRACKET] + k), first, depth) ==
            if depth + ElemsHeight(e) <= MAX_DEPTH then Some(k) else None
    decreases e, 1
  {
    var close := [RBRACKET] + k;
    var more := if e.MoreElems? then MoreElemsTo(false, e.tail, close) else close;
    var u := TreeTo(e.v, e.post + more);
    assert Valid(e.v) && AllWs(e.post);
    assert e.MoreElems? ==> ValidElems(e.tail);
    ElemIs(w, first, e, close);
    EndedTail(e.post, more);
    hide TreeTo, ElemsTo, MoreElemsTo, Valid, ValidElems, SkipValue, NextElem;
    SkipDecides([], e.v, e.post + more, depth);
    assert [] + u == u;
    if e.MoreElems? {
      ElemsDecide(e.post, false, e.tail, k, depth);
    } else {
      CloseIs(e.post, k, false);
    }
  }

  lemma {:induction false} MembersDecide(w: bytes, first: bool, m: Members, k: bytes, depth: nat)
    requires AllWs(w) && ValidMembers(m) && depth <= MAX_DEPTH
    ensures SkipMembers(w + MoreTo(first, m, [RBRACE] + k), first, depth) ==
            if depth + MembersHeight(m) <= MAX_DEPTH then Some(k) else None
    decreases m, 1
  {
    var close := [RBRACE] + k;
    var more := if m.MoreMembers? then MoreTo(false, m.tail, close) else close;
    assert AllWs(m.pre) && Valid(m.v) && AllWs(m.post);
    assert m.MoreMembers? ==> ValidMembers(m.tail);
    KeyIs(w, first, m, close);
    EndedTail(m.post, more);
    hide TreeTo, MembersTo, MoreTo, Valid, ValidMembers, SkipValue, NextKey;
    SkipDecides(m.pre, m.v, m.post + more, depth);
    if m.MoreMembers? {
      MembersDecide(m.post, false, m.tail, k, depth);
    } else {
      CloseIs(m.post, k, false);
    }
  }

  /**
   SkipValue is sound and complete: it succeeds with `rest` exactly when the consumed bytes are
   white space and one JSON value of admissible nesting.
   */
  lemma SkipValueExact(s: bytes, rest: bytes, depth: nat)
    ensures SkipValue(s, depth) == Some(rest) <==> IsValue(s, rest, depth)
  {
    if SkipValue(s, depth) == Some(rest) {
      var w, t := SkipSound(s, depth);
    }
    if IsValue(s, rest, depth) {
      var w, t :| Parses(s, w, t, rest, depth);
      SkipDecides(w, t, rest, depth);
    }
  }
}
