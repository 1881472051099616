/**
 Decimal integers: what the encoders print, the overflow-checked token readers, the JSON number
 token and the fallbacks behind them.
 */
module Numbers {
  import opened Bytes
  import opened Text

  const MAX_INT32 := 0x7FFF_FFFF
  const MAX_UINT32 := 0xFFFF_FFFF
  const MAX_INT64 := 0x7FFF_FFFF_FFFF_FFFF
  const MAX_UINT64 := 0xFFFF_FFFF_FFFF_FFFF

  predicate IsInt32(n: int) { -MAX_INT32 - 1 <= n <= MAX_INT32 }
  predicate IsUint32(n: int) { 0 <= n <= MAX_UINT32 }
  predicate IsInt64(n: int) { -MAX_INT64 - 1 <= n <= MAX_INT64 }
  predicate IsUint64(n: int) { 0 <= n <= MAX_UINT64 }

  // ---------------------------------------------------------------- printing

  /** strconv.AppendUint in base 10. */
  function Digits(n: nat): (r: bytes)
    ensures r != [] && AllDigits(r)
    ensures |r| > 1 ==> r[0] != ZERO
    ensures n > 0 ==> r[0] != ZERO
  {
    if n < 10 then [ZERO + n] else Digits(n / 10) + [ZERO + n % 10]
  }

  /** strconv.AppendInt in base 10. */
  function Decimal(n: int): (r: bytes)
    ensures r != []
  {
    if n < 0 then [MINUS] + Digits(-n) else Digits(n)
  }

  /** The number a run of digits denotes, read from the left into an accumulator. */
  function ValueFrom(u: nat, s: bytes): (r: nat)
    requires AllDigits(s)
    ensures r >= u
    decreases s
  {
    if s == [] then u else ValueFrom(u * 10 + (s[0] - ZERO), s[1..])
  }

  lemma {:induction false} ValueFromAppend(u: nat, s: bytes, t: bytes)
    requires AllDigits(s) && AllDigits(t)
    ensures AllDigits(s + t)
    ensures ValueFrom(u, s + t) == ValueFrom(ValueFrom(u, s), t)
    decreases s
  {
    if s == [] {
      assert s + t == t;
    } else {
      assert (s + t)[1..] == s[1..] + t;
      ValueFromAppend(u * 10 + (s[0] - ZERO), s[1..], t);
    }
  }

  lemma {:induction false} DigitsValue(n: nat)
    ensures ValueFrom(0, Digits(n)) == n
  {
    if n >= 10 {
      DigitsValue(n / 10);
      ValueFromAppend(0, Digits(n / 10), [ZERO + n % 10]);
      assert ValueFrom(n / 10, [ZERO + n % 10]) == ValueFrom(n / 10 * 10 + n % 10, [ZERO + n % 10][1..]);
    }
  }

  // ---------------------------------------------------------------- simple tokens

  /** Outcome of a simple token reader: not a simple token, out of range, or a value. */
  datatype Token = NotSimple | OutOfRange | Simple(value: int, rest: bytes)

  /** The overflow-checked loop shared by readSimpleInt64Token and readSimpleUint64Token. */
  function DigitLoop(s: bytes, u: nat, limit: nat): (r: Token)
    requires u <= limit
    ensures r.Simple? ==> |r.rest| <= |s| && Ended(r.rest) && u <= r.value <= limit
    ensures r.Simple? && s != [] && IsDigit(s[0]) ==> |r.rest| < |s|
  {
    if s == [] then Simple(u, s)
    else
      var c := s[0];
      if !IsDigit(c) then
        if IsTerminator(c) then Simple(u, s) else NotSimple
      else if u > limit / 10 then OutOfRange
      else
        var digit: nat := c - ZERO;
        if u * 10 > limit - digit then OutOfRange
        else DigitLoop(s[1..], u * 10 + digit, limit)
  }

  predicate LeadsWithDigit(s: bytes) {
    s != [] && IsDigit(s[0]) && !(s[0] == ZERO && |s| > 1 && IsDigit(s[1]))
  }

  function Negate(t: Token): Token {
    match t case Simple(v, rest) => Simple(-v, rest) case other => other
  }

  /** readSimpleInt64Token. */
  function SimpleInt64(s: bytes): (r: Token)
    ensures r.Simple? ==> IsInt64(r.value) && |r.rest| < |s| && Ended(r.rest)
  {
    var neg := At(s, MINUS);
    var t := if neg then s[1..] else s;
    if !LeadsWithDigit(t) then NotSimple
    else
      var r := DigitLoop(t, 0, if neg then MAX_INT64 + 1 else MAX_INT64);
      if neg then Negate(r) else r
  }

  /** readSimpleUint64Token. */
  function SimpleUint64(s: bytes): (r: Token)
    ensures r.Simple? ==> IsUint64(r.value) && |r.rest| < |s| && Ended(r.rest)
  {
    if !LeadsWithDigit(s) then NotSimple else DigitLoop(s, 0, MAX_UINT64)
  }

  /**
   The loop is exact: on a run of digits followed by an end it gives the denoted number, or reports
   a range error when and only when that number exceeds the limit.
   */
  lemma {:induction false} DigitLoopExact(d: bytes, t: bytes, u: nat, limit: nat)
    requires AllDigits(d) && Ended(t) && u <= limit && limit >= 10
    ensures DigitLoop(d + t, u, limit) ==
            if ValueFrom(u, d) <= limit then Simple(ValueFrom(u, d), t) else OutOfRange
  {
    if d == [] {
      assert d + t == t;
    } else {
      var s := d + t;
      var digit: nat := d[0] - ZERO;
      assert s[1..] == d[1..] + t;
      if u * 10 + digit > limit {
        assert ValueFrom(u, d) >= u * 10 + digit;
      } else {
        DigitLoopExact(d[1..], t, u * 10 + digit, limit);
      }
    }
  }

  // ---------------------------------------------------------------- JSON number tokens

  function SkipDigits(s: bytes): (r: bytes)
    ensures |r| <= |s|
    ensures r == [] || !IsDigit(r[0])
  {
    if s != [] && IsDigit(s[0]) then SkipDigits(s[1..]) else s
  }

  /** The integer part of a number: a lone zero or a run of digits that does not start with zero. */
  function IntPart(s: bytes): (r: Option<bytes>)
    ensures r.Some? ==> |r.value| < |s|
  {
    if s == [] || !IsDigit(s[0]) then None
    else if s[0] == ZERO then Some(s[1..])
    else Some(SkipDigits(s[1..]))
  }

  /** At least one digit. */
  function SomeDigits(s: bytes): (r: Option<bytes>)
    ensures r.Some? ==> |r.value| < |s|
  {
    if s == [] || !IsDigit(s[0]) then None
    else Some(SkipDigits(s[1..]))
  }

  function FracPart(s: bytes): (r: Option<bytes>)
    ensures r.Some? ==> |r.value| <= |s|
  {
    if At(s, DOT) then SomeDigits(s[1..]) else Some(s)
  }

  predicate AtExp(s: bytes) {
    At(s, 101) || At(s, 69)
  }

  function DropSign(s: bytes): (r: bytes)
    ensures |r| <= |s|
  {
    if At(s, PLUS) || At(s, MINUS) then s[1..] else s
  }

  function ExpPart(s: bytes): (r: Option<bytes>)
    ensures r.Some? ==> |r.value| <= |s|
  {
    if AtExp(s) then SomeDigits(DropSign(s[1..])) else Some(s)
  }

  /** The bytes behind the number token at the head of `s`, whatever follows it. */
  function NumberEnd(s: bytes): (r: Option<bytes>)
    ensures r.Some? ==> |r.value| < |s|
  {
    var t := if At(s, MINUS) then s[1..] else s;
    match IntPart(t)
    case None => None
    case Some(a) =>
      match FracPart(a)
      case None => None
      case Some(b) => ExpPart(b)
  }

  /** readJSONNumberToken: the token and what follows it, which has to be an end. */
  function ReadNumberToken(s: bytes): (r: Read<bytes>)
    ensures r.Ok? ==> |r.rest| < |s|
  {
    var t := SkipWs(s);
    match NumberEnd(t)
    case None => Err
    case Some(rest) => if Ended(rest) then Ok(t[..|t| - |rest|], rest) else Err
  }

  // ---------------------------------------------------------------- library conversions

  /** Outcome of strconv.ParseInt and strconv.ParseUint in base 10. */
  datatype Parsed = Syntax | Range | Number(value: int)

  /** The loop of strconv.ParseUint with bit size 64. */
  function ParseDigits(s: bytes, u: nat): (r: Parsed)
    requires u <= MAX_UINT64
    ensures r.Number? ==> u <= r.value <= MAX_UINT64
  {
    if s == [] then Number(u)
    else if !IsDigit(s[0]) then Syntax
    else
      var v := u * 10 + (s[0] - ZERO);
      if v > MAX_UINT64 then Range else ParseDigits(s[1..], v)
  }

  /** strconv.ParseUint(s, 10, 64). */
  function ParseUint64(s: bytes): (r: Parsed)
    ensures r.Number? ==> IsUint64(r.value)
  {
    if s == [] then Syntax else ParseDigits(s, 0)
  }

  /** strconv.ParseInt(s, 10, 64). */
  function ParseInt64(s: bytes): (r: Parsed)
    ensures r.Number? ==> IsInt64(r.value)
  {
    if s == [] then Syntax
    else
      match ParseUint64(DropSign(s))
      case Syntax => Syntax
      case Range => Range
      case Number(u) =>
        var n := if s[0] == MINUS then -u else u;
        if IsInt64(n) then Number(n) else Range
  }

  /**
   What strconv.ParseFloat followed by the integrality and range tests makes of a text that the
   integer parsers do not take. The functions are left open: every result about integers holds
   whatever they are.
   */
  datatype Floats = Floats(signed: bytes -> Option<int>, unsigned: bytes -> Option<nat>)

  function OrFloat(p: Parsed, f: Option<int>): Option<int> {
    match p
    case Number(n) => Some(n)
    case Range => None
    case Syntax => f
  }

  function Give(v: Option<int>, rest: bytes): (r: Read<int>)
    ensures r.Ok? ==> r.rest == rest
  {
    match v case None => Err case Some(n) => Ok(n, rest)
  }

  /** readNumberLike: the contents of a string or a bare number token. */
  function ReadNumberLike(s: bytes): (r: Read<bytes>)
    ensures r.Ok? ==> |r.rest| < |s|
  {
    var t := SkipWs(s);
    if At(t, QUOTE) then ReadString(s) else ReadNumberToken(s)
  }

  /** readInt64. */
  function ReadInt64(fl: Floats, s: bytes): (r: Read<int>)
    ensures r.Ok? ==> |r.rest| < |s|
  {
    var t := SkipWs(s);
    var tok := if t != [] && t[0] != QUOTE then SimpleInt64(t) else NotSimple;
    match tok
    case OutOfRange => Err
    case Simple(v, rest) => Ok(v, rest)
    case NotSimple =>
      var (text, rest) :- ReadNumberLike(s);
      Give(OrFloat(ParseInt64(text), fl.signed(text)), rest)
  }

  /** readUint64. */
  function ReadUint64(fl: Floats, s: bytes): (r: Read<int>)
    ensures r.Ok? ==> |r.rest| < |s|
  {
    var t := SkipWs(s);
    var tok := if t != [] && t[0] != QUOTE then SimpleUint64(t) else NotSimple;
    match tok
    case OutOfRange => Err
    case Simple(v, rest) => Ok(v, rest)
    case NotSimple =>
      var (text, rest) :- ReadNumberLike(s);
      Give(OrFloat(ParseUint64(text), fl.unsigned(text)), rest)
  }

  function Within(r: Read<int>, lo: int, hi: int): (r': Read<int>)
    ensures r'.Ok? ==> r.Ok? && r'.value == r.value && lo <= r'.value <= hi && r'.rest == r.rest
  {
    if r.Ok? && lo <= r.value <= hi then r else Err
  }

  /** ReadInt32. */
  function ReadInt32(fl: Floats, s: bytes): (r: Read<int>)
    ensures r.Ok? ==> |r.rest| < |s| && IsInt32(r.value)
  {
    Within(ReadInt64(fl, s), -MAX_INT32 - 1, MAX_INT32)
  }

  /** ReadUint32. */
  function ReadUint32(fl: Floats, s: bytes): (r: Read<int>)
    ensures r.Ok? ==> |r.rest| < |s| && IsUint32(r.value)
  {
    Within(ReadUint64(fl, s), 0, MAX_UINT32)
  }

  // ---------------------------------------------------------------- printing then reading

  lemma SimpleInt64Reads(n: int, t: bytes)
    requires Ended(t)
    ensures SimpleInt64(Decimal(n) + t) == if IsInt64(n) then Simple(n, t) else OutOfRange
  {
    hide Digits, ValueFrom, DigitLoop;
    var d := Digits(if n < 0 then -n else n);
    var s := Decimal(n) + t;
    DigitsValue(if n < 0 then -n else n);
    if n < 0 {
      assert s[1..] == d + t;
      DigitLoopExact(d, t, 0, MAX_INT64 + 1);
    } else {
      assert s == d + t;
      DigitLoopExact(d, t, 0, MAX_INT64);
    }
  }

  lemma SimpleUint64Reads(n: nat, t: bytes)
    requires Ended(t)
    ensures SimpleUint64(Digits(n) + t) == if IsUint64(n) then Simple(n, t) else OutOfRange
  {
    DigitsValue(n);
    DigitLoopExact(Digits(n), t, 0, MAX_UINT64);
  }

  lemma DecimalHead(n: int, t: bytes)
    ensures var s := Decimal(n) + t; !IsWs(s[0]) && s[0] != QUOTE && (s[0] == MINUS || IsDigit(s[0]))
  {
  }

  /** A bare integer is read back exactly; one outside the range is refused. */
  lemma Int64ReadsBack(fl: Floats, n: int, t: bytes)
    requires Ended(t)
    ensures ReadInt64(fl, Decimal(n) + t) == if IsInt64(n) then Ok(n, t) else Err
  {
    SimpleInt64Reads(n, t);
    DecimalHead(n, t);
    SkipWsStop(Decimal(n) + t);
  }

  lemma Uint64ReadsBack(fl: Floats, n: nat, t: bytes)
    requires Ended(t)
    ensures ReadUint64(fl, Digits(n) + t) == if IsUint64(n) then Ok(n, t) else Err
  {
    SimpleUint64Reads(n, t);
    DecimalHead(n, t);
    SkipWsStop(Digits(n) + t);
  }

  /** The parser gives the number denoted, exactly when the text is digits and the number fits. */
  lemma {:induction false} ParseDigitsExact(s: bytes, u: nat)
    requires u <= MAX_UINT64
    ensures AllDigits(s) ==> ParseDigits(s, u) == if ValueFrom(u, s) <= MAX_UINT64 then Number(ValueFrom(u, s)) else Range
    ensures !AllDigits(s) ==> !ParseDigits(s, u).Number?
  {
    if s != [] {
      assert AllDigits(s) <==> IsDigit(s[0]) && AllDigits(s[1..]);
      if IsDigit(s[0]) {
        var v := u * 10 + (s[0] - ZERO);
        if v <= MAX_UINT64 {
          ParseDigitsExact(s[1..], v);
        }
      }
    }
  }

  lemma ParseReadsBack(n: int)
    ensures ParseInt64(Decimal(n)) == if IsInt64(n) then Number(n) else Range
    ensures n >= 0 ==> ParseUint64(Digits(n)) == if IsUint64(n) then Number(n) else Range
  {
    var m := if n < 0 then -n else n;
    DigitsValue(m);
    ParseDigitsExact(Digits(m), 0);
    if n < 0 {
      assert Decimal(n)[1..] == Digits(m);
    }
  }

  /** Digits and a sign need no escaping, so quoting adds the quotes and nothing else. */
  lemma {:induction false} PlainEscape(s: bytes)
    requires AllPlain(s)
    ensures Escape(s) == s
  {
    if s != [] {
      PlainEscape(s[1..]);
      assert s == [s[0]] + s[1..];
    }
  }

  /** Int64String and Uint64String: a number between quotes. */
  function QuotedDecimal(n: int): bytes {
    [QUOTE] + Decimal(n) + [QUOTE]
  }

  lemma QuotedInt64ReadsBack(fl: Floats, n: int, t: bytes)
    requires IsInt64(n)
    ensures ReadInt64(fl, QuotedDecimal(n) + t) == Ok(n, t)
  {
    PlainEscape(Decimal(n));
    QuoteReadsBack(Decimal(n), t);
    SkipWsStop(QuotedDecimal(n) + t);
    ParseReadsBack(n);
  }

  lemma QuotedUint64ReadsBack(fl: Floats, n: nat, t: bytes)
    requires IsUint64(n)
    ensures ReadUint64(fl, QuotedDecimal(n) + t) == Ok(n, t)
  {
    PlainEscape(Decimal(n));
    QuoteReadsBack(Decimal(n), t);
    SkipWsStop(QuotedDecimal(n) + t);
    ParseReadsBack(n);
  }
}
