/**
 The text of timestamps: printing, parsing, and what exactly the parser accepts.
 */
module Times {
  import opened Bytes
  import opened Numbers
  import opened Civil

  const TEE: byte := 84
  const ZED: byte := 90
  const ESS: byte := 115
  const NANOS_PER_SECOND := 1_000_000_000

  // ---------------------------------------------------------------- digits of fixed width

  function Pow10(n: nat): (r: nat)
    ensures r > 0
  {
    if n == 0 then 1 else 10 * Pow10(n - 1)
  }

  /** The last `n` digits of `v`, padded with zeros. */
  function Pad(v: nat, n: nat): (r: bytes)
    ensures |r| == n && AllDigits(r)
  {
    if n == 0 then [] else Pad(v / 10, n - 1) + [ZERO + v % 10]
  }

  lemma {:induction false} PadValue(v: nat, n: nat)
    requires v < Pow10(n)
    ensures ValueFrom(0, Pad(v, n)) == v
  {
    if n > 0 {
      PadValue(v / 10, n - 1);
      ValueFromAppend(0, Pad(v / 10, n - 1), [ZERO + v % 10]);
      OneDigit(v / 10, v % 10);
    }
  }

  lemma OneDigit(u: nat, d: nat)
    requires d < 10
    ensures ValueFrom(u, [ZERO + d]) == u * 10 + d
  {
    assert [ZERO + d][1..] == [];
    assert ValueFrom(u * 10 + d, []) == u * 10 + d;
  }

  lemma {:induction false} PadUnique(s: bytes)
    requires AllDigits(s)
    ensures Pad(ValueFrom(0, s), |s|) == s && ValueFrom(0, s) < Pow10(|s|)
  {
    if s != [] {
      var t, c := s[..|s| - 1], s[|s| - 1];
      assert s == t + [c];
      PadUnique(t);
      ValueFromAppend(0, t, [c]);
      OneDigit(ValueFrom(0, t), c - ZERO);
      hide ValueFrom;
      PadNext(ValueFrom(0, t), c, |t|);
    }
  }

  lemma PadNext(u: nat, c: byte, n: nat)
    requires IsDigit(c)
    ensures Pad(u * 10 + (c - ZERO), n + 1) == Pad(u, n) + [c]
    ensures u < Pow10(n) ==> u * 10 + (c - ZERO) < Pow10(n + 1)
  {
  }

  lemma Powers()
    ensures Pow10(0) == 1 && Pow10(1) == 10 && Pow10(2) == 100 && Pow10(3) == 1000 && Pow10(4) == 10_000
    ensures Pow10(6) == 1_000_000 && Pow10(9) == 1_000_000_000
  {
    assert Pow10(3) == 1000;
    assert Pow10(6) == 1000 * Pow10(3);
    assert Pow10(9) == 1000 * Pow10(6);
  }

  // ---------------------------------------------------------------- fractions of a second

  /** The nanoseconds that a run of at most nine digits behind the point denotes. */
  function FracNanos(d: bytes): nat
    requires AllDigits(d) && |d| <= 9
  {
    ValueFrom(0, d) * Pow10(9 - |d|)
  }

  /** The shortest of the forms with 0, 3, 6 and 9 digits that loses nothing. */
  function FracDigits(nanos: nat): (d: bytes)
    ensures AllDigits(d) && |d| <= 9
  {
    if nanos == 0 then []
    else if nanos % 1_000_000 == 0 then Pad(nanos / 1_000_000, 3)
    else if nanos % 1_000 == 0 then Pad(nanos / 1_000, 6)
    else Pad(nanos, 9)
  }

  lemma FracReadsBack(nanos: nat)
    requires nanos < NANOS_PER_SECOND
    ensures FracNanos(FracDigits(nanos)) == nanos
  {
    Powers();
    hide Pow10, Pad;
    if nanos % 1_000_000 == 0 {
      PadValue(nanos / 1_000_000, 3);
    } else if nanos % 1_000 == 0 {
      PadValue(nanos / 1_000, 6);
    } else {
      PadValue(nanos, 9);
    }
  }

  lemma FracBound(d: bytes)
    requires AllDigits(d) && |d| <= 9
    ensures FracNanos(d) < NANOS_PER_SECOND
  {
    PadUnique(d);
    PowSplit(|d|, 9 - |d|);
    Powers();
    assert ValueFrom(0, d) * Pow10(9 - |d|) < Pow10(|d|) * Pow10(9 - |d|);
  }

  lemma {:induction false} PowSplit(a: nat, b: nat)
    ensures Pow10(a + b) == Pow10(a) * Pow10(b)
  {
    if a > 0 {
      PowSplit(a - 1, b);
    }
  }

  function FracText(d: bytes): bytes {
    if d == [] then [] else [DOT] + d
  }

  // ---------------------------------------------------------------- timestamps

  /** The parts of a timestamp in UTC; `frac` holds the digits behind the point. */
  datatype Stamp = Stamp(date: Date, hour: nat, minute: nat, second: nat, frac: bytes)

  predicate ValidStamp(p: Stamp) {
    && ValidDate(p.date) && 0 <= p.date.year <= 9999
    && p.hour <= 23 && p.minute <= 59 && p.second <= 59
    && AllDigits(p.frac) && |p.frac| <= 9
  }

  /** Date and time of day as section 5.6 of RFC 3339 lays them out. */
  function StampHead(p: Stamp): (r: bytes)
    requires ValidStamp(p)
    ensures |r| == 19
  {
    Pad(p.date.year, 4) + [MINUS] + Pad(p.date.month, 2) + [MINUS] + Pad(p.date.day, 2) + [TEE] +
    Pad(p.hour, 2) + [COLON] + Pad(p.minute, 2) + [COLON] + Pad(p.second, 2)
  }

  function StampText(p: Stamp): bytes
    requires ValidStamp(p)
  {
    StampHead(p) + (FracText(p.frac) + [ZED])
  }

  function StampSeconds(p: Stamp): int {
    DaysSinceEpoch(p.date) * 86400 + (p.hour * 3600 + p.minute * 60 + p.second)
  }

  predicate ValidTimestamp(secs: int, nanos: int) {
    MIN_SECONDS <= secs <= MAX_SECONDS && 0 <= nanos < NANOS_PER_SECOND
  }

  /** The parts of a point in time: the one date with its day number, and the time of that day. */
  function StampOf(secs: int, nanos: nat): Stamp
    requires ValidTimestamp(secs, nanos)
  {
    var t := secs % 86400;
    Stamp(DateOf(secs / 86400), t / 3600, t / 60 % 60, t % 60, FracDigits(nanos))
  }

  lemma StampOfValid(secs: int, nanos: nat)
    requires ValidTimestamp(secs, nanos)
    ensures var p := StampOf(secs, nanos);
            ValidStamp(p) && p.date.year >= 1 && StampSeconds(p) == secs && FracNanos(p.frac) == nanos
  {
    var d := DateOf(secs / 86400);
    TimeOfDay(secs % 86400);
    FracReadsBack(nanos);
    hide DaysSinceEpoch, FracDigits, FracNanos;
    DateOfUnique(secs / 86400, d);
    hide DateOf, ValidDate;
    YearsInRange(d, secs % 86400);
    assert DaysSinceEpoch(d) * 86400 + secs % 86400 == secs;
  }

  lemma TimeOfDay(t: nat)
    requires t < 86400
    ensures t == t / 3600 * 3600 + t / 60 % 60 * 60 + t % 60 && t / 3600 <= 23
  {
    assert t / 60 / 60 == t / 3600;
  }

  /** AppendTimestamp, without the buffer it appends to. */
  function TimestampText(secs: int, nanos: nat): bytes
    requires ValidTimestamp(secs, nanos)
  {
    StampOfValid(secs, nanos);
    StampText(StampOf(secs, nanos))
  }

  /** Outcome of ParseUTCTimestampBytes: not this form, an error, or the seconds and nanoseconds. */
  datatype Instant = NotUTC | Bad | At(secs: int, nanos: int)

  /** parseNDigitsBytes. */
  function FixedDigits(s: bytes, off: nat, n: nat): Option<nat> {
    if off + n <= |s| && AllDigits(s[off..off + n]) then Some(ValueFrom(0, s[off..off + n])) else None
  }

  /** The number of digits at the head of `s`. */
  function Run(s: bytes): (n: nat)
    ensures n <= |s| && AllDigits(s[..n]) && (n < |s| ==> !IsDigit(s[n]))
  {
    if s == [] || !IsDigit(s[0]) then 0
    else
      var n := Run(s[1..]);
      assert s[..n + 1] == [s[0]] + s[1..][..n];
      n + 1
  }

  predicate Punctuated(s: bytes) {
    |s| >= 20 && s[4] == MINUS && s[7] == MINUS && s[10] == TEE && s[13] == COLON && s[16] == COLON
  }

  /** The checks behind the fraction. */
  function Checked(date: Date, hour: nat, minute: nat, second: nat, nanos: nat): Instant {
    if !ValidDate(date) || hour > 23 || minute > 59 || second > 59 then Bad
    else
      var secs := DaysSinceEpoch(date) * 86400 + (hour * 3600 + minute * 60 + second);
      if ValidTimestamp(secs, nanos) then At(secs, nanos) else Bad
  }

  /** ParseUTCTimestampBytes from the fraction on. */
  function ParseTail(t: bytes, date: Date, hour: nat, minute: nat, second: nat): Instant {
    if Bytes.At(t, DOT) then
      var n := Run(t[1..]);
      if n == 0 || n > 9 then Bad
      else if t[1 + n..] != [ZED] then NotUTC
      else Checked(date, hour, minute, second, FracNanos(t[1..][..n]))
    else if t != [ZED] then NotUTC
    else Checked(date, hour, minute, second, 0)
  }

  /** ParseUTCTimestampBytes. */
  function ParseTimestamp(s: bytes): Instant {
    if !Punctuated(s) then NotUTC
    else
      match (FixedDigits(s, 0, 4), FixedDigits(s, 5, 2), FixedDigits(s, 8, 2), FixedDigits(s, 11, 2), FixedDigits(s, 14, 2), FixedDigits(s, 17, 2))
      case (Some(year), Some(month), Some(day), Some(hour), Some(minute), Some(second)) =>
        ParseTail(s[19..], Date(year, month, day), hour, minute, second)
      case _ => NotUTC
  }

  // ---------------------------------------------------------------- the parser is exact

  lemma HeadSlices(p: Stamp, t: bytes)
    requires ValidStamp(p) && t != []
    ensures var s := StampHead(p) + t;
            && Punctuated(s) && s[19..] == t
            && s[0..4] == Pad(p.date.year, 4) && s[5..7] == Pad(p.date.month, 2) && s[8..10] == Pad(p.date.day, 2)
            && s[11..13] == Pad(p.hour, 2) && s[14..16] == Pad(p.minute, 2) && s[17..19] == Pad(p.second, 2)
  {
    hide Pad;
  }

  lemma HeadReads(p: Stamp, t: bytes)
    requires ValidStamp(p) && t != []
    ensures ParseTimestamp(StampHead(p) + t) == ParseTail(t, p.date, p.hour, p.minute, p.second)
  {
    Powers();
    PadValue(p.date.year, 4);
    PadValue(p.date.month, 2);
    PadValue(p.date.day, 2);
    PadValue(p.hour, 2);
    PadValue(p.minute, 2);
    PadValue(p.second, 2);
    HeadSlices(p, t);
    hide Pad, ValueFrom, StampHead, ParseTail, Pow10, ValidStamp;
  }

  lemma RunIs(d: bytes, t: bytes)
    requires AllDigits(d) && (t == [] || !IsDigit(t[0]))
    ensures Run(d + t) == |d| && (d + t)[..|d|] == d
  {
    if d == [] {
      assert d + t == t;
    } else {
      assert (d + t)[1..] == d[1..] + t;
      RunIs(d[1..], t);
    }
  }

  lemma TailReads(p: Stamp)
    requires ValidStamp(p)
    ensures ParseTail(FracText(p.frac) + [ZED], p.date, p.hour, p.minute, p.second) ==
            Checked(p.date, p.hour, p.minute, p.second, FracNanos(p.frac))
  {
    hide Checked;
    var t := FracText(p.frac) + [ZED];
    if p.frac != [] {
      RunIs(p.frac, [ZED]);
      assert t[1..] == p.frac + [ZED];
      assert t[1 + |p.frac|..] == [ZED];
    } else {
      assert t == [ZED];
    }
  }

  /** Printed in its parts, every timestamp in range is read back. */
  lemma StampReads(p: Stamp)
    requires ValidStamp(p)
    ensures ParseTimestamp(StampText(p)) ==
            if MIN_SECONDS <= StampSeconds(p) <= MAX_SECONDS then At(StampSeconds(p), FracNanos(p.frac)) else Bad
  {
    hide StampHead, ParseTimestamp, ParseTail, FracNanos, DaysSinceEpoch;
    HeadReads(p, FracText(p.frac) + [ZED]);
    TailReads(p);
    FracBound(p.frac);
  }

  /** AppendTimestamp and ParseUTCTimestampBytes invert each other on every valid point in time. */
  lemma TimestampReadsBack(secs: int, nanos: nat)
    requires ValidTimestamp(secs, nanos)
    ensures ParseTimestamp(TimestampText(secs, nanos)) == At(secs, nanos)
  {
    StampOfValid(secs, nanos);
    StampReads(StampOf(secs, nanos));
  }

  lemma FixedIs(s: bytes, off: nat, n: nat)
    requires FixedDigits(s, off, n).Some?
    ensures off + n <= |s| && Pad(FixedDigits(s, off, n).value, n) == s[off..off + n] && FixedDigits(s, off, n).value < Pow10(n)
  {
    PadUnique(s[off..off + n]);
  }

  lemma HeadParts(s: bytes, p: Stamp)
    requires Punctuated(s) && ValidStamp(p)
    requires s[0..4] == Pad(p.date.year, 4) && s[5..7] == Pad(p.date.month, 2) && s[8..10] == Pad(p.date.day, 2)
    requires s[11..13] == Pad(p.hour, 2) && s[14..16] == Pad(p.minute, 2) && s[17..19] == Pad(p.second, 2)
    ensures s[..19] == StampHead(p)
  {
    hide Pad, ValidStamp;
    assert s[..19] == s[0..4] + [s[4]] + s[5..7] + [s[7]] + s[8..10] + [s[10]] + s[11..13] + [s[13]] + s[14..16] + [s[16]] + s[17..19];
  }

  /** The parts that a text accepted by the parser was read from. */
  lemma PartsOf(s: bytes) returns (p: Stamp)
    requires ParseTimestamp(s).At?
    ensures ValidStamp(p) && s == StampText(p)
  {
    hide ParseTail, FixedDigits, Punctuated, DaysSinceEpoch;
    var year, month, day := FixedDigits(s, 0, 4).value, FixedDigits(s, 5, 2).value, FixedDigits(s, 8, 2).value;
    var hour, minute, second := FixedDigits(s, 11, 2).value, FixedDigits(s, 14, 2).value, FixedDigits(s, 17, 2).value;
    Powers();
    FixedIs(s, 0, 4);
    FixedIs(s, 5, 2);
    FixedIs(s, 8, 2);
    FixedIs(s, 11, 2);
    FixedIs(s, 14, 2);
    FixedIs(s, 17, 2);
    var frac := TailParts(s[19..], Date(year, month, day), hour, minute, second);
    hide Pad, Pow10;
    p := Stamp(Date(year, month, day), hour, minute, second, frac);
    HeadParts(s, p);
    assert s == s[..19] + s[19..];
  }

  lemma TailParts(t: bytes, date: Date, hour: nat, minute: nat, second: nat) returns (frac: bytes)
    requires ParseTail(t, date, hour, minute, second).At?
    ensures AllDigits(frac) && |frac| <= 9 && t == FracText(frac) + [ZED]
    ensures ValidDate(date) && hour <= 23 && minute <= 59 && second <= 59
  {
    hide DaysSinceEpoch;
    frac := [];
    if Bytes.At(t, DOT) {
      var n := Run(t[1..]);
      frac := t[1..][..n];
      assert t == [DOT] + frac + t[1 + n..];
    }
  }

  /**
   The parser accepts exactly the UTC timestamps of section 5.6 of RFC 3339 with at most nine digits
   of fraction in the years 1 to 9999, and gives the point in time they denote.
   */
  lemma TimestampExact(s: bytes, secs: int, nanos: int)
    ensures ParseTimestamp(s) == At(secs, nanos) <==>
            exists p :: ValidStamp(p) && p.date.year >= 1 && s == StampText(p) && secs == StampSeconds(p) && nanos == FracNanos(p.frac)
  {
    hide StampText, ParseTimestamp, DaysSinceEpoch, FracNanos;
    if ParseTimestamp(s) == At(secs, nanos) {
      var p := PartsOf(s);
      StampReads(p);
      YearsInRange(p.date, p.hour * 3600 + p.minute * 60 + p.second);
    }
    if p :| ValidStamp(p) && p.date.year >= 1 && s == StampText(p) && secs == StampSeconds(p) && nanos == FracNanos(p.frac) {
      StampReads(p);
      YearsInRange(p.date, p.hour * 3600 + p.minute * 60 + p.second);
    }
  }

  // ---------------------------------------------------------------- the loops

  /** `n` zeros. */
  function Zeros(n: int): (s: bytes)
    ensures |s| == if n > 0 then n else 0
  {
    if n > 0 then [ZERO] + Zeros(n - 1) else []
  }

  /** The digits of a number with zeros in front up to a width, which longer numbers exceed. */
  function Padded(v: nat, width: int): bytes {
    Zeros(width - |Digits(v)|) + Digits(v)
  }

  lemma {:induction false} DigitsFit(v: nat, k: nat)
    requires v < Pow10(k) && k > 0
    ensures |Digits(v)| <= k
  {
    if v >= 10 {
      DigitsFit(v / 10, k - 1);
    }
  }

  lemma {:induction false} ZerosAppend(n: nat)
    ensures Zeros(n + 1) == Zeros(n) + [ZERO]
  {
    if n > 0 {
      ZerosAppend(n - 1);
    }
  }

  /** Within the width this is the text of that width. */
  lemma {:induction false} PaddedIsPad(v: nat, width: nat)
    requires width > 0 && v < Pow10(width)
    ensures Padded(v, width) == Pad(v, width)
  {
    if v < 10 {
      ZeroPads(width - 1);
      assert Digits(v) == [ZERO + v];
    } else {
      PaddedIsPad(v / 10, width - 1);
      assert Padded(v, width) == Padded(v / 10, width - 1) + [ZERO + v % 10];
    }
  }

  lemma {:induction false} ZeroPads(n: nat)
    ensures Pad(0, n) == Zeros(n)
  {
    if n > 0 {
      ZeroPads(n - 1);
      ZerosAppend(n - 1);
    }
  }

  /** appendPaddedInt32: digits from the right into a scratch buffer, then zeros and the buffer. */
  method AppendPaddedInt32(buf: bytes, v: nat, width: int) returns (r: bytes)
    requires v <= MAX_INT32
    ensures r == buf + Padded(v, width)
  {
    assert |Digits(v)| <= 10 by {
      assert Pow10(10) == 10_000_000_000;
      DigitsFit(v, 10);
    }
    hide Pow10;
    var tmp := new byte[10];
    var i, n, w := 10, v, width;
    while true
      invariant 0 <= n && 0 < |Digits(n)| <= i <= 10 && w == width - (10 - i)
      invariant Digits(v) == Digits(n) + tmp[i..]
      decreases n
    {
      i := i - 1;
      tmp[i] := ZERO + n % 10;
      w := w - 1;
      assert tmp[i..] == [ZERO + n % 10] + tmp[i + 1..];
      if n / 10 == 0 {
        break;
      }
      n := n / 10;
    }
    assert Digits(v) == tmp[i..];
    r := buf;
    while w > 0
      invariant buf + Padded(v, width) == r + (Zeros(w) + Digits(v))
    {
      assert r + (Zeros(w) + Digits(v)) == (r + [ZERO]) + (Zeros(w - 1) + Digits(v));
      r := r + [ZERO];
      w := w - 1;
    }
    r := r + tmp[i..];
  }

  /** parseNDigitsBytes. */
  method ParseNDigits(s: bytes, off: nat, n: nat) returns (v: nat, ok: bool)
    ensures ok == FixedDigits(s, off, n).Some?
    ensures ok ==> v == FixedDigits(s, off, n).value
  {
    v := 0;
    if off + n > |s| {
      return 0, false;
    }
    var i := 0;
    while i < n
      invariant i <= n && AllDigits(s[off..off + i]) && v == ValueFrom(0, s[off..off + i])
    {
      var c := s[off + i];
      if c < ZERO || c > NINE {
        assert s[off..off + n][i] == c;
        return 0, false;
      }
      assert s[off..off + i + 1] == s[off..off + i] + [c];
      ValueFromAppend(0, s[off..off + i], [c]);
      OneDigit(v, c - ZERO);
      v := v * 10 + (c - ZERO);
      i := i + 1;
    }
    ok := true;
  }

  lemma RunEnds(s: bytes, n: nat)
    requires n <= |s| && AllDigits(s[..n]) && (n < |s| ==> !IsDigit(s[n]))
    ensures Run(s) == n
  {
    assert s == s[..n] + s[n..];
    RunIs(s[..n], s[n..]);
  }

  lemma RunLong(s: bytes, n: nat)
    requires n <= |s| && AllDigits(s[..n])
    ensures Run(s) >= n
  {
    if n > 0 {
      assert s[0] == s[..n][0];
      assert s[1..][..n - 1] == s[..n][1..];
      RunLong(s[1..], n - 1);
    }
  }

  /** Multiplying by ten up to nine digits. */
  method ScaleToNanos(n: nat, digits: nat) returns (r: nat)
    requires digits <= 9
    ensures r == n * Pow10(9 - digits)
  {
    r := n;
    var i := digits;
    while i < 9
      invariant digits <= i <= 9 && r * Pow10(9 - i) == n * Pow10(9 - digits)
    {
      assert r * 10 * Pow10(9 - (i + 1)) == r * Pow10(9 - i);
      r := r * 10;
      i := i + 1;
    }
  }

  /** The fraction of a timestamp, `t` being what follows the seconds. */
  method ParseFraction(t: bytes) returns (nanos: nat, pos: nat, ok: bool)
    ensures Bytes.At(t, DOT) ==>
              var n := Run(t[1..]);
              ok == (0 < n <= 9) && (ok ==> pos == 1 + n && nanos == FracNanos(t[1..][..n]))
    ensures !Bytes.At(t, DOT) ==> ok && pos == 0 && nanos == 0
  {
    nanos, pos, ok := 0, 0, true;
    if pos < |t| && t[pos] == DOT {
      pos := pos + 1;
      ghost var d := t[1..];
      while pos < |t| && ZERO <= t[pos] <= NINE
        invariant 1 <= pos <= |t| && pos <= 10
        invariant AllDigits(d[..pos - 1]) && nanos == ValueFrom(0, d[..pos - 1])
      {
        if pos - 1 >= 9 {
          assert d[..pos] == d[..pos - 1] + [t[pos]];
          RunLong(d, pos);
          return 0, pos, false;
        }
        assert d[..pos] == d[..pos - 1] + [t[pos]];
        ValueFromAppend(0, d[..pos - 1], [t[pos]]);
        OneDigit(nanos, t[pos] - ZERO);
        nanos := nanos * 10 + (t[pos] - ZERO);
        pos := pos + 1;
      }
      RunEnds(d, pos - 1);
      if pos == 1 {
        return 0, pos, false;
      }
      PadUnique(d[..pos - 1]);
      nanos := ScaleToNanos(nanos, pos - 1);
    }
  }

  /** ParseUTCTimestampBytes: `ok` tells whether the text has this form at all, `err` whether it is refused. */
  method ParseUTCTimestamp(s: bytes) returns (secs: int, nanos: int, ok: bool, err: bool)
    ensures ParseTimestamp(s) == if !ok then NotUTC else if err then Bad else At(secs, nanos)
  {
    secs, nanos, ok, err := 0, 0, false, false;
    if |s| < 20 || s[4] != MINUS || s[7] != MINUS || s[10] != TEE || s[13] != COLON || s[16] != COLON {
      return;
    }
    hide FixedDigits, Checked, FracNanos, Run, DaysSinceEpoch;
    var year, month, day, hour, minute, second, found;
    year, found := ParseNDigits(s, 0, 4);
    if !found {
      return;
    }
    month, found := ParseNDigits(s, 5, 2);
    if !found {
      return;
    }
    day, found := ParseNDigits(s, 8, 2);
    if !found {
      return;
    }
    hour, found := ParseNDigits(s, 11, 2);
    if !found {
      return;
    }
    minute, found := ParseNDigits(s, 14, 2);
    if !found {
      return;
    }
    second, found := ParseNDigits(s, 17, 2);
    if !found {
      return;
    }
    var frac, pos, good := ParseFraction(s[19..]);
    if !good {
      return 0, 0, true, true;
    }
    pos := pos + 19;
    assert s[19..][pos - 19..] == s[pos..];
    assert |s[pos..]| == 1 ==> s[pos..] == [s[pos]];
    if pos != |s| - 1 || s[pos] != ZED {
      return;
    }
    secs, err := CheckInstant(Date(year, month, day), hour, minute, second, frac);
    return secs, frac, true, err;
  }

  /** The range checks of ParseUTCTimestampBytes and ValidateTimestamp. */
  method CheckInstant(d: Date, hour: nat, minute: nat, second: nat, nanos: nat) returns (secs: int, err: bool)
    ensures Checked(d, hour, minute, second, nanos) == if err then Bad else At(secs, nanos)
  {
    if d.month < 1 || d.month > 12 || d.day < 1 || d.day > DaysInMonth(d.year, d.month) || hour > 23 || minute > 59 || second > 59 {
      return 0, true;
    }
    hide DaysSinceEpoch;
    secs := DaysSinceEpoch(d) * 86400 + (hour * 3600 + minute * 60 + second);
    err := secs < -62135596800 || secs > 253402300799 || nanos >= 1_000_000_000;
  }

  /** The fraction with 0, 3, 6 or 9 digits. */
  method AppendFraction(buf: bytes, nanos: nat) returns (r: bytes)
    requires nanos < NANOS_PER_SECOND
    ensures r == buf + FracText(FracDigits(nanos))
  {
    Powers();
    hide Pow10, Pad, Padded;
    r := buf;
    if nanos != 0 {
      r := r + [DOT];
      if nanos % 1_000_000 == 0 {
        PaddedIsPad(nanos / 1_000_000, 3);
        r := AppendPaddedInt32(r, nanos / 1_000_000, 3);
      } else if nanos % 1_000 == 0 {
        PaddedIsPad(nanos / 1_000, 6);
        r := AppendPaddedInt32(r, nanos / 1_000, 6);
      } else {
        PaddedIsPad(nanos, 9);
        r := AppendPaddedInt32(r, nanos, 9);
      }
    }
  }

  /** AppendTimestamp behind the date and the time of day, which the time package prints. */
  method AppendTimestamp(buf: bytes, secs: int, nanos: nat) returns (r: bytes)
    requires ValidTimestamp(secs, nanos)
    ensures r == buf + TimestampText(secs, nanos)
  {
    hide FracDigits, FracText, FracNanos, DaysSinceEpoch, ValidDate, StampHead;
    StampOfValid(secs, nanos);
    ghost var head := StampHead(StampOf(secs, nanos));
    r := buf + StampHead(StampOf(secs, nanos));
    r := AppendFraction(r, nanos);
    r := r + [ZED];
    assert r == buf + (head + (FracText(FracDigits(nanos)) + [ZED]));
  }
}
