/**
 Durations: the two parsers, the printer, and the grammar they share.
 */
module Durations {
  import opened Bytes
  import opened Numbers
  import opened Times

  const MAX_DURATION := 315576000000

  /** ValidateDuration. */
  predicate ValidDuration(secs: int, nanos: int) {
    && -MAX_DURATION <= secs <= MAX_DURATION && -NANOS_PER_SECOND < nanos < NANOS_PER_SECOND
    && !(secs < 0 && nanos > 0) && !(secs > 0 && nanos < 0)
  }

  // ---------------------------------------------------------------- the grammar

  /** The parts of a duration: an optional sign, the whole seconds, and the digits behind the point. */
  datatype Span = Span(sign: bytes, whole: bytes, frac: bytes)

  predicate Unpadded(s: bytes) {
    s != [] && AllDigits(s) && (|s| > 1 ==> s[0] != ZERO)
  }

  predicate ValidSpan(p: Span) {
    && (p.sign == [] || p.sign == [PLUS] || p.sign == [MINUS])
    && Unpadded(p.whole) && AllDigits(p.frac) && |p.frac| <= 9
  }

  function SpanText(p: Span): bytes {
    p.sign + (p.whole + FracText(p.frac)) + [ESS]
  }

  function Signed(p: Span, n: int): int {
    if p.sign == [MINUS] then -n else n
  }

  function SpanSeconds(p: Span): int
    requires ValidSpan(p)
  {
    Signed(p, ValueFrom(0, p.whole))
  }

  function SpanNanos(p: Span): int
    requires ValidSpan(p)
  {
    Signed(p, FracNanos(p.frac))
  }

  /** The duration in nanoseconds is the decimal number written, scaled by a power of ten. */
  lemma SpanIsDecimal(p: Span)
    requires ValidSpan(p)
    ensures AllDigits(p.whole + p.frac)
    ensures SpanSeconds(p) * NANOS_PER_SECOND + SpanNanos(p) == Signed(p, ValueFrom(0, p.whole + p.frac) * Pow10(9 - |p.frac|))
  {
    var w, n := ValueFrom(0, p.whole), |p.frac|;
    Powers();
    hide ValueFrom, Pow10;
    ValueFromAppend(0, p.whole, p.frac);
    ValueFromShift(w, p.frac);
    PowSplit(n, 9 - n);
    ScaleSum(w, Pow10(n), ValueFrom(0, p.frac), Pow10(9 - n));
    Negated(w, FracNanos(p.frac));
  }

  lemma ScaleSum(w: int, a: int, f: int, b: int)
    ensures (w * a + f) * b == w * (a * b) + f * b
  {
    assert w * a * b == w * (a * b);
  }

  lemma Negated(w: int, f: int)
    ensures -w * NANOS_PER_SECOND + -f == -(w * NANOS_PER_SECOND + f)
  {
  }

  lemma {:induction false} ValueFromShift(u: nat, s: bytes)
    requires AllDigits(s)
    ensures ValueFrom(u, s) == u * Pow10(|s|) + ValueFrom(0, s)
    decreases |s|
  {
    if s != [] {
      var t, c: nat := s[..|s| - 1], s[|s| - 1] - ZERO;
      assert s == t + [ZERO + c];
      ValueFromShift(u, t);
      ValueFromAppend(u, t, [ZERO + c]);
      ValueFromAppend(0, t, [ZERO + c]);
      OneDigit(ValueFrom(u, t), c);
      OneDigit(ValueFrom(0, t), c);
      assert Pow10(|s|) == 10 * Pow10(|t|);
      hide ValueFrom, Pow10;
      ScaleSum(u, Pow10(|t|), ValueFrom(0, t), 10);
    }
  }

  // ---------------------------------------------------------------- the parsers

  /** The place of the first point in `s`, or its length. */
  function Dot(s: bytes): (n: nat)
    ensures n <= |s| && (n < |s| ==> s[n] == DOT) && DOT !in s[..n]
  {
    if s == [] || s[0] == DOT then 0
    else
      var n := Dot(s[1..]);
      assert s[..n + 1] == [s[0]] + s[1..][..n];
      n + 1
  }

  /** The nanoseconds behind the point at `dot`, if there is one. */
  function FractionAt(s: bytes, dot: nat): Option<nat>
    requires dot <= |s|
  {
    if dot == |s| then Some(0)
    else
      var frac := s[dot + 1..];
      if frac == [] || |frac| > 9 || !AllDigits(frac) then None else Some(FracNanos(frac))
  }

  /** The whole seconds as parseDurationBytes reads them. */
  function PlainSeconds(s: bytes): Option<int> {
    if AllDigits(s) && ValueFrom(0, s) <= MAX_INT64 then Some(ValueFrom(0, s)) else None
  }

  /** The whole seconds as ParseDuration reads them, with strconv.ParseInt. */
  function LibrarySeconds(s: bytes): Option<int> {
    match ParseInt64(s) case Number(n) => Some(n) case _ => None
  }

  function Validated(neg: bool, secs: int, nanos: int): Option<(int, int)> {
    var (s, n) := if neg then (-secs, -nanos) else (secs, nanos);
    if ValidDuration(s, n) then Some((s, n)) else None
  }

  /** Both parsers on the text between the sign and the `s`. */
  function ParseUnsigned(s: bytes, library: bool, neg: bool): Option<(int, int)> {
    var dot := Dot(s);
    var whole := s[..dot];
    if whole == [] || (|whole| > 1 && whole[0] == ZERO) || (dot < |s| && DOT in s[dot + 1..]) then None
    else
      match (if library then LibrarySeconds(whole) else PlainSeconds(whole), FractionAt(s, dot))
      case (Some(secs), Some(nanos)) => Validated(neg, secs, nanos)
      case _ => None
  }

  predicate HasSign(s: bytes) {
    Bytes.At(s, MINUS) || Bytes.At(s, PLUS)
  }

  function Parse(s: bytes, library: bool): Option<(int, int)> {
    if |s| < 2 || s[|s| - 1] != ESS then None
    else
      var t := s[..|s| - 1];
      ParseUnsigned(DropSign(t), library, Bytes.At(t, MINUS))
  }

  /** parseDurationBytes. */
  function ParseDurationBytes(s: bytes): Option<(int, int)> {
    Parse(s, false)
  }

  /** ParseDuration. */
  function ParseDuration(s: bytes): Option<(int, int)> {
    Parse(s, true)
  }

  // ---------------------------------------------------------------- parseDurationBytes is exact

  lemma {:induction false} DotIs(w: bytes, t: bytes)
    requires AllDigits(w) && (t == [] || t[0] == DOT)
    ensures Dot(w + t) == |w|
  {
    if w == [] {
      assert w + t == t;
    } else {
      assert (w + t)[1..] == w[1..] + t;
      DotIs(w[1..], t);
    }
  }

  lemma UnsignedReads(p: Span, neg: bool)
    requires ValidSpan(p)
    ensures ParseUnsigned(p.whole + FracText(p.frac), false, neg) ==
            if ValueFrom(0, p.whole) <= MAX_INT64 then Validated(neg, ValueFrom(0, p.whole), FracNanos(p.frac)) else None
  {
    var s := p.whole + FracText(p.frac);
    DotIs(p.whole, FracText(p.frac));
    assert s[..|p.whole|] == p.whole;
    hide ValueFrom, Pow10, Dot, Validated;
    if p.frac == [] {
      assert FracNanos([]) == 0 by {
        NoNanos();
      }
    } else {
      assert s[|p.whole| + 1..] == p.frac;
    }
  }

  lemma NoNanos()
    ensures FracNanos([]) == 0
  {
  }

  lemma SpanSplits(p: Span)
    requires ValidSpan(p)
    ensures var s := SpanText(p);
            && |s| >= 2 && s[|s| - 1] == ESS
            && DropSign(s[..|s| - 1]) == p.whole + FracText(p.frac) && Bytes.At(s[..|s| - 1], MINUS) == (p.sign == [MINUS])
  {
    var s := SpanText(p);
    var body := p.whole + FracText(p.frac);
    assert s[..|s| - 1] == p.sign + body;
    assert IsDigit(body[0]);
    assert p.sign == [] ==> p.sign + body == body;
    assert p.sign != [] ==> (p.sign + body)[1..] == body;
  }

  /** Written in its parts, a duration is read back if its seconds are in range. */
  lemma SpanReads(p: Span)
    requires ValidSpan(p)
    ensures ParseDurationBytes(SpanText(p)) ==
            if -MAX_DURATION <= SpanSeconds(p) <= MAX_DURATION then Some((SpanSeconds(p), SpanNanos(p))) else None
  {
    SpanSplits(p);
    UnsignedReads(p, p.sign == [MINUS]);
    FracBound(p.frac);
    hide SpanText, ParseUnsigned, ValueFrom, FracNanos, DropSign;
  }

  lemma UnsignedParts(s: bytes, neg: bool) returns (p: Span)
    requires ParseUnsigned(s, false, neg).Some?
    ensures ValidSpan(p) && p.sign == [] && s == p.whole + FracText(p.frac)
  {
    hide ValueFrom, FracNanos, Validated, Pow10;
    var dot := Dot(s);
    var frac := if dot < |s| then s[dot + 1..] else [];
    p := Span([], s[..dot], frac);
    assert FractionAt(s, dot).Some? && PlainSeconds(s[..dot]).Some?;
    hide Dot;
    if dot < |s| {
      assert s == s[..dot] + ([DOT] + s[dot + 1..]);
    } else {
      assert s[..dot] == s;
    }
  }

  lemma SignSplits(t: bytes) returns (sign: bytes)
    ensures t == sign + DropSign(t) && (sign == [] || sign == [PLUS] || sign == [MINUS])
  {
    sign := if HasSign(t) then [t[0]] else [];
  }

  lemma SpanParts(s: bytes) returns (p: Span)
    requires ParseDurationBytes(s).Some?
    ensures ValidSpan(p) && s == SpanText(p)
  {
    hide ParseUnsigned, FracText, DropSign;
    var t := s[..|s| - 1];
    p := UnsignedParts(DropSign(t), Bytes.At(t, MINUS));
    var sign := SignSplits(t);
    p := p.(sign := sign);
    assert s == t + [ESS];
  }

  /**
   parseDurationBytes accepts exactly an optional sign, an unpadded integer, an optional fraction of
   one to nine digits and `s`, within the bound on the seconds, and gives the number written.
   */
  lemma DurationExact(s: bytes, secs: int, nanos: int)
    ensures ParseDurationBytes(s) == Some((secs, nanos)) <==>
            && -MAX_DURATION <= secs <= MAX_DURATION
            && exists p :: ValidSpan(p) && s == SpanText(p) && secs == SpanSeconds(p) && nanos == SpanNanos(p)
  {
    hide ParseDurationBytes, ValidSpan, SpanText, SpanSeconds, SpanNanos;
    if ParseDurationBytes(s) == Some((secs, nanos)) {
      var p := SpanParts(s);
      SpanReads(p);
    }
    if p :| ValidSpan(p) && s == SpanText(p) && secs == SpanSeconds(p) && nanos == SpanNanos(p) {
      SpanReads(p);
    }
  }

  // ---------------------------------------------------------------- printing

  /** The parts AppendDuration prints. */
  function SpanOf(secs: int, nanos: int): Span {
    var neg := secs < 0 || nanos < 0;
    Span(if neg then [MINUS] else [], Digits(if secs < 0 then -secs else secs), FracDigits(if nanos < 0 then -nanos else nanos))
  }

  lemma SpanOfValid(secs: int, nanos: int)
    requires ValidDuration(secs, nanos)
    ensures var p := SpanOf(secs, nanos);
            ValidSpan(p) && SpanSeconds(p) == secs && SpanNanos(p) == nanos
  {
    FracReadsBack(if nanos < 0 then -nanos else nanos);
    DigitsValue(if secs < 0 then -secs else secs);
    hide FracDigits, FracNanos, Digits, ValueFrom;
  }

  /** AppendDuration, without the buffer it appends to. */
  function DurationText(secs: int, nanos: int): bytes {
    SpanText(SpanOf(secs, nanos))
  }

  /** parseDurationBytes inverts AppendDuration on every valid duration. */
  lemma DurationReadsBack(secs: int, nanos: int)
    requires ValidDuration(secs, nanos)
    ensures ParseDurationBytes(DurationText(secs, nanos)) == Some((secs, nanos))
  {
    SpanOfValid(secs, nanos);
    hide SpanOf, SpanText, SpanSeconds, SpanNanos, ParseDurationBytes, ValidSpan;
    SpanReads(SpanOf(secs, nanos));
  }

  // ---------------------------------------------------------------- the two parsers

  lemma SecondsAgree(s: bytes)
    requires s != []
    ensures LibrarySeconds(s) == PlainSeconds(s) || HasSign(s)
    ensures HasSign(s) ==> PlainSeconds(s).None?
  {
    ParseDigitsExact(s, 0);
    hide ParseDigits, ValueFrom;
  }

  /** A second sign in front of the digits. */
  predicate SignedTwice(s: bytes) {
    |s| >= 2 && HasSign(DropSign(s[..|s| - 1]))
  }

  /** Without a second sign the parsers agree, and with one parseDurationBytes refuses. */
  lemma OneSignAgrees(s: bytes)
    ensures !SignedTwice(s) ==> ParseDuration(s) == ParseDurationBytes(s)
    ensures SignedTwice(s) ==> ParseDurationBytes(s).None?
  {
    if |s| >= 2 {
      var t := DropSign(s[..|s| - 1]);
      var whole := t[..Dot(t)];
      if whole != [] {
        SecondsAgree(whole);
        assert whole[0] == t[0];
      }
      hide LibrarySeconds, PlainSeconds, FractionAt, Validated, Dot;
    }
  }

  /** Whatever parseDurationBytes accepts, ParseDuration accepts with the same result. */
  lemma ParserImplied(s: bytes)
    requires ParseDurationBytes(s).Some?
    ensures ParseDuration(s) == ParseDurationBytes(s)
  {
    OneSignAgrees(s);
  }

  /** The parts of a text with a second sign: here the whole seconds may be padded. */
  datatype Twice = Twice(outer: byte, inner: byte, whole: bytes, frac: bytes)

  predicate IsSign(c: byte) {
    c == PLUS || c == MINUS
  }

  function Under(sign: byte, n: int): int {
    if sign == MINUS then -n else n
  }

  predicate ValidTwice(q: Twice) {
    && IsSign(q.outer) && IsSign(q.inner)
    && q.whole != [] && AllDigits(q.whole) && AllDigits(q.frac) && |q.frac| <= 9
  }

  function TwiceBody(q: Twice): bytes {
    [q.inner] + (q.whole + FracText(q.frac))
  }

  function TwiceText(q: Twice): bytes {
    [q.outer] + TwiceBody(q) + [ESS]
  }

  /** The signs apply to the seconds one after the other, and to the fraction only the first. */
  function TwiceSeconds(q: Twice): int
    requires ValidTwice(q)
  {
    Under(q.outer, Under(q.inner, ValueFrom(0, q.whole)))
  }

  function TwiceNanos(q: Twice): int
    requires ValidTwice(q)
  {
    Under(q.outer, FracNanos(q.frac))
  }

  /** Within the bound, and with a second minus not both seconds and a fraction, whose signs would differ. */
  predicate Taken(q: Twice)
    requires ValidTwice(q)
  {
    && ValueFrom(0, q.whole) <= MAX_DURATION
    && (q.inner == MINUS ==> ValueFrom(0, q.whole) == 0 || FracNanos(q.frac) == 0)
  }

  /** What the library makes of a sign and digits. */
  lemma LibraryReads(inner: byte, whole: bytes)
    requires IsSign(inner) && whole != [] && AllDigits(whole)
    ensures var r := LibrarySeconds([inner] + whole);
            && (ValueFrom(0, whole) <= MAX_DURATION ==> r.Some?)
            && (r.Some? ==> r.value == Under(inner, ValueFrom(0, whole)))
  {
    ParseDigitsExact(whole, 0);
    assert ([inner] + whole)[1..] == whole;
    hide ParseDigits, ValueFrom;
  }

  /** Whatever the library takes behind a sign is digits. */
  lemma LibraryTakes(s: bytes)
    requires HasSign(s) && LibrarySeconds(s).Some?
    ensures s[1..] != [] && AllDigits(s[1..])
  {
    ParseDigitsExact(s[1..], 0);
    hide ParseDigits, ValueFrom;
  }

  lemma BodySplits(q: Twice)
    requires ValidTwice(q)
    ensures var s := TwiceBody(q);
            && Dot(s) == |q.whole| + 1 && s[..Dot(s)] == [q.inner] + q.whole
            && (q.frac == [] ==> Dot(s) == |s|)
            && (q.frac != [] ==> Dot(s) < |s| && s[Dot(s) + 1..] == q.frac)
  {
    var s := TwiceBody(q);
    assert s[1..] == q.whole + FracText(q.frac);
    DotIs(q.whole, FracText(q.frac));
  }

  lemma BodyFraction(q: Twice)
    requires ValidTwice(q)
    ensures var s := TwiceBody(q);
            FractionAt(s, Dot(s)) == Some(FracNanos(q.frac)) && (Dot(s) < |s| ==> DOT !in s[Dot(s) + 1..])
  {
    BodySplits(q);
    NoNanos();
    hide Dot, TwiceBody, FracNanos;
  }

  lemma TwiceUnsigned(q: Twice, neg: bool)
    requires ValidTwice(q)
    ensures ParseUnsigned(TwiceBody(q), true, neg) ==
            match LibrarySeconds([q.inner] + q.whole) case None => None case Some(n) => Validated(neg, n, FracNanos(q.frac))
  {
    BodySplits(q);
    BodyFraction(q);
    assert ([q.inner] + q.whole)[0] == q.inner;
    hide Dot, TwiceBody, FracNanos, FractionAt, LibrarySeconds, ValueFrom, Validated;
  }

  lemma TwiceSplits(q: Twice)
    requires ValidTwice(q)
    ensures var s := TwiceText(q);
            && |s| >= 2 && s[|s| - 1] == ESS && DropSign(s[..|s| - 1]) == TwiceBody(q) && HasSign(TwiceBody(q))
            && Bytes.At(s[..|s| - 1], MINUS) == (q.outer == MINUS)
  {
    var s := TwiceText(q);
    assert s[..|s| - 1] == [q.outer] + TwiceBody(q);
    assert ([q.outer] + TwiceBody(q))[1..] == TwiceBody(q);
  }

  /** Written in its parts, such a text is read as the parts say or refused. */
  lemma TwiceReads(q: Twice)
    requires ValidTwice(q)
    ensures SignedTwice(TwiceText(q))
    ensures ParseDuration(TwiceText(q)) == if Taken(q) then Some((TwiceSeconds(q), TwiceNanos(q))) else None
  {
    TwiceSplits(q);
    TwiceUnsigned(q, q.outer == MINUS);
    LibraryReads(q.inner, q.whole);
    FracBound(q.frac);
    hide ParseUnsigned, ValueFrom, FracNanos, LibrarySeconds, TwiceText, TwiceBody, DropSign;
  }

  /** Whatever ParseDuration takes with a second sign has such parts. */
  lemma TwiceParts(s: bytes) returns (q: Twice)
    requires SignedTwice(s) && ParseDuration(s).Some?
    ensures ValidTwice(q) && s == TwiceText(q)
  {
    hide ParseUnsigned, TwiceBody, FracText;
    var u := s[..|s| - 1];
    var body := DropSign(u);
    assert u == [s[0]] + body;
    q := BodyParts(body, Bytes.At(u, MINUS));
    q := q.(outer := s[0]);
    BodyStays(q);
    assert s == [s[0]] + body + [ESS];
  }

  lemma BodyStays(q: Twice)
    ensures TwiceBody(q) == TwiceBody(q.(outer := PLUS))
  {
  }

  lemma BodyParts(body: bytes, neg: bool) returns (q: Twice)
    requires HasSign(body) && ParseUnsigned(body, true, neg).Some?
    ensures ValidTwice(q) && q.outer == PLUS && TwiceBody(q) == body
  {
    hide *;
    var dot := Dot(body);
    UnsignedTakes(body, neg);
    var whole, frac := body[..dot], if dot < |body| then body[dot + 1..] else [];
    assert whole[0] == body[0];
    SignAtHead(body, whole);
    LibraryTakes(whole);
    FractionTakes(body, dot);
    q := Twice(PLUS, body[0], whole[1..], frac);
    assert whole == [body[0]] + whole[1..];
    assert body == whole + body[dot..];
    PartsValid(q);
  }

  lemma SignAtHead(s: bytes, t: bytes)
    requires HasSign(s) && t != [] && t[0] == s[0]
    ensures HasSign(t) && IsSign(s[0])
  {
  }

  lemma PartsValid(q: Twice)
    requires IsSign(q.inner) && q.outer == PLUS && q.whole != [] && AllDigits(q.whole) && AllDigits(q.frac) && |q.frac| <= 9
    ensures ValidTwice(q) && TwiceBody(q) == [q.inner] + q.whole + FracText(q.frac)
  {
    hide FracText;
  }

  lemma UnsignedTakes(s: bytes, neg: bool)
    requires ParseUnsigned(s, true, neg).Some?
    ensures s[..Dot(s)] != [] && LibrarySeconds(s[..Dot(s)]).Some? && FractionAt(s, Dot(s)).Some?
  {
    hide Dot, LibrarySeconds, FractionAt, Validated;
  }

  lemma FractionTakes(s: bytes, dot: nat)
    requires dot <= |s| && FractionAt(s, dot).Some? && (dot < |s| ==> s[dot] == DOT)
    ensures var frac := if dot < |s| then s[dot + 1..] else [];
            AllDigits(frac) && |frac| <= 9 && s[dot..] == FracText(frac)
  {
    hide FracNanos;
  }

  /** With a second sign, ParseDuration takes exactly these texts, with these values. */
  lemma SecondSignExact(s: bytes, secs: int, nanos: int)
    ensures SignedTwice(s) && ParseDuration(s) == Some((secs, nanos)) <==>
            exists q :: ValidTwice(q) && Taken(q) && s == TwiceText(q) && secs == TwiceSeconds(q) && nanos == TwiceNanos(q)
  {
    hide ParseDuration, ValidTwice, Taken, TwiceText, TwiceSeconds, TwiceNanos, SignedTwice;
    if SignedTwice(s) && ParseDuration(s) == Some((secs, nanos)) {
      var q := TwiceParts(s);
      TwiceReads(q);
    }
    if q :| ValidTwice(q) && Taken(q) && s == TwiceText(q) && secs == TwiceSeconds(q) && nanos == TwiceNanos(q) {
      TwiceReads(q);
    }
  }

  /** The two parsers agree on a text exactly unless it is taken for its second sign. */
  lemma ParsersAgree(s: bytes)
    ensures ParseDuration(s) == ParseDurationBytes(s) <==> !exists q :: ValidTwice(q) && Taken(q) && s == TwiceText(q)
  {
    hide ParseDuration, ParseDurationBytes, ValidTwice, Taken, TwiceText, SignedTwice;
    OneSignAgrees(s);
    if SignedTwice(s) && ParseDuration(s).Some? {
      var q := TwiceParts(s);
      TwiceReads(q);
    }
    if q :| ValidTwice(q) && Taken(q) && s == TwiceText(q) {
      TwiceReads(q);
    }
  }

  /** `--05s` is five seconds to ParseDuration, `--0.5s` is half a second back, and `--5.5s` is refused. */
  lemma TwoMinuses(whole: bytes, frac: bytes)
    requires whole != [] && AllDigits(whole) && AllDigits(frac) && |frac| <= 9
    ensures ParseDuration([MINUS, MINUS] + whole + FracText(frac) + [ESS]) ==
            if ValueFrom(0, whole) <= MAX_DURATION && (ValueFrom(0, whole) == 0 || FracNanos(frac) == 0)
            then Some((ValueFrom(0, whole), Under(MINUS, FracNanos(frac)))) else None
  {
    var q := Twice(MINUS, MINUS, whole, frac);
    TwiceFlat(q);
    hide ValueFrom, FracNanos, FracText, ParseDuration, TwiceText;
    TwiceReads(q);
  }

  lemma TwiceFlat(q: Twice)
    ensures TwiceText(q) == [q.outer, q.inner] + q.whole + FracText(q.frac) + [ESS]
  {
    hide FracText;
  }

  /** `--5s` is five seconds to ParseDuration; parseDurationBytes refuses it. */
  lemma SecondSign()
    ensures ParseDuration([MINUS, MINUS, 53, ESS]) == Some((5, 0)) && ParseDurationBytes([MINUS, MINUS, 53, ESS]).None?
  {
    var s: bytes := [MINUS, MINUS, 53, ESS];
    TwoMinuses([53], []);
    NoNanos();
    assert [MINUS, MINUS] + [53] + [] + [ESS] == s;
    assert DropSign(s[..3]) == [MINUS, 53];
    OneSignAgrees(s);
  }

  // ---------------------------------------------------------------- the loops

  /** The search for the point, which may occur once; `dot` is negative when there is none. */
  method FindDot(s: bytes) returns (dot: int, ok: bool)
    ensures ok <==> Dot(s) == |s| || DOT !in s[Dot(s) + 1..]
    ensures ok ==> dot == if Dot(s) < |s| then Dot(s) else -1
  {
    dot, ok := -1, true;
    var i := 0;
    while i < |s|
      invariant i <= |s|
      invariant if dot < 0 then dot == -1 && DOT !in s[..i] else dot < i && s[dot] == DOT && DOT !in s[..dot] && DOT !in s[dot + 1..i]
    {
      if s[i] == DOT {
        if dot >= 0 {
          DotAt(s, dot);
          assert s[dot + 1..][i - dot - 1] == DOT;
          return dot, false;
        }
        dot := i;
      } else {
        assert s[..i + 1] == s[..i] + [s[i]];
        assert dot >= 0 ==> s[dot + 1..i + 1] == s[dot + 1..i] + [s[i]];
      }
      i := i + 1;
    }
    assert s[..i] == s;
    if dot >= 0 {
      DotAt(s, dot);
    }
  }

  lemma DotAt(s: bytes, n: nat)
    requires n < |s| && s[n] == DOT && DOT !in s[..n]
    ensures Dot(s) == n
  {
    var d := Dot(s);
    DotBound(s, n);
    assert s[d] == DOT;
    assert forall i :: 0 <= i < n ==> s[..n][i] == s[i];
  }

  lemma DotBound(s: bytes, n: nat)
    requires n < |s| && s[n] == DOT
    ensures Dot(s) <= n
  {
    if s[0] != DOT {
      DotBound(s[1..], n - 1);
    }
  }

  /** The loop over the whole seconds, which refuses a sum before it could overflow. */
  method ReadSeconds(s: bytes) returns (secs: int, ok: bool)
    ensures PlainSeconds(s) == if ok then Some(secs) else None
  {
    secs := 0;
    var i := 0;
    while i < |s|
      invariant i <= |s| && AllDigits(s[..i]) && secs == ValueFrom(0, s[..i]) <= MAX_INT64
    {
      var c := s[i];
      if c < ZERO || c > NINE {
        return 0, false;
      }
      assert s[..i + 1] == s[..i] + [c];
      ValueFromAppend(0, s[..i], [c]);
      OneDigit(secs, c - ZERO);
      if secs > (MAX_INT64 - (c - ZERO)) / 10 {
        if AllDigits(s) {
          assert s == s[..i + 1] + s[i + 1..];
          ValueFromAppend(0, s[..i + 1], s[i + 1..]);
        }
        return 0, false;
      }
      secs := secs * 10 + (c - ZERO);
      i := i + 1;
    }
    assert s[..i] == s;
    ok := true;
  }

  /** The loop over the digits behind the point. */
  method ReadFraction(frac: bytes) returns (nanos: nat, ok: bool)
    ensures ok <==> frac != [] && |frac| <= 9 && AllDigits(frac)
    ensures ok ==> nanos == FracNanos(frac)
  {
    nanos := 0;
    if |frac| == 0 || |frac| > 9 {
      return 0, false;
    }
    var i := 0;
    while i < |frac|
      invariant i <= |frac| && AllDigits(frac[..i]) && nanos == ValueFrom(0, frac[..i])
    {
      var c := frac[i];
      if c < ZERO || c > NINE {
        return 0, false;
      }
      assert frac[..i + 1] == frac[..i] + [c];
      ValueFromAppend(0, frac[..i], [c]);
      OneDigit(nanos, c - ZERO);
      nanos := nanos * 10 + (c - ZERO);
      i := i + 1;
    }
    assert frac[..i] == frac;
    nanos := ScaleToNanos(nanos, |frac|);
    ok := true;
  }

  /** parseDurationBytes and ParseDuration, which differ in how they read the whole seconds. */
  method ParseDurationText(data: bytes, library: bool) returns (secs: int, nanos: int, ok: bool)
    ensures Parse(data, library) == if ok then Some((secs, nanos)) else None
  {
    hide Dot, PlainSeconds, LibrarySeconds, FracNanos;
    secs, nanos, ok := 0, 0, false;
    var s := data;
    if |s| < 2 || s[|s| - 1] != ESS {
      return;
    }
    s := s[..|s| - 1];
    if |s| == 0 {
      return;
    }
    var neg := false;
    if s[0] == MINUS || s[0] == PLUS {
      neg := s[0] == MINUS;
      s := s[1..];
      if |s| == 0 {
        return;
      }
    }
    assert s == DropSign(data[..|data| - 1]);
    var dot, found := FindDot(s);
    if !found {
      return;
    }
    var intPart := s;
    if dot >= 0 {
      intPart := s[..dot];
    }
    assert intPart == s[..Dot(s)];
    if |intPart| == 0 {
      return;
    }
    if |intPart| > 1 && intPart[0] == ZERO {
      return;
    }
    if library {
      match LibrarySeconds(intPart)
      case None => return;
      case Some(n) => secs := n;
    } else {
      var good;
      secs, good := ReadSeconds(intPart);
      if !good {
        return;
      }
    }
    if dot >= 0 {
      var good;
      nanos, good := ReadFraction(s[dot + 1..]);
      if !good {
        return;
      }
    }
    if neg {
      secs, nanos := -secs, -nanos;
    }
    ok := ValidDuration(secs, nanos);
  }

  /** AppendDuration, also beyond the bound on the seconds and with parts of different signs. */
  method AppendDuration(buf: bytes, secs: int, nanos: int) returns (r: bytes)
    requires -NANOS_PER_SECOND < nanos < NANOS_PER_SECOND
    ensures r == buf + DurationText(secs, nanos)
  {
    if nanos == 0 {
      r := buf + Decimal(secs);
      r := r + [ESS];
      assert SpanOf(secs, 0).frac == [];
      assert Decimal(secs) == SpanOf(secs, 0).sign + (SpanOf(secs, 0).whole + []);
      return;
    }
    var neg := secs < 0 || nanos < 0;
    var whole: nat := if secs < 0 then -secs else secs;
    var n: nat := if nanos < 0 then -nanos else nanos;
    ghost var frac := FracDigits(n);
    assert frac != [] && SpanOf(secs, nanos) == Span(if neg then [MINUS] else [], Digits(whole), frac);
    hide Digits, FracDigits, SpanOf, Decimal;
    r := buf;
    if neg {
      r := r + [MINUS];
    }
    r := r + Digits(whole);
    r := r + [DOT];
    r := AppendScaled(r, n);
    r := r + [ESS];
    SpanShape(buf, if neg then [MINUS] else [], Digits(whole), frac);
  }

  /** The fraction of a second in the narrowest of the widths 3, 6 and 9. */
  method AppendScaled(buf: bytes, nanos: nat) returns (r: bytes)
    requires 0 < nanos < NANOS_PER_SECOND
    ensures r == buf + FracDigits(nanos)
  {
    Powers();
    hide Pow10, Pad, Padded;
    var n, fracWidth := nanos, 9;
    if n % 1_000_000 == 0 {
      fracWidth := 3;
      n := n / 1_000_000;
    } else if n % 1_000 == 0 {
      fracWidth := 6;
      n := n / 1_000;
    }
    PaddedIsPad(n, fracWidth);
    r := AppendPaddedInt32(buf, n, fracWidth);
  }

  lemma SpanShape(buf: bytes, sign: bytes, whole: bytes, frac: bytes)
    requires frac != []
    ensures buf + sign + whole + [DOT] + frac + [ESS] == buf + SpanText(Span(sign, whole, frac))
  {
  }
}
