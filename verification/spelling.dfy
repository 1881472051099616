/**
 The remaining texts character by character: the names of field masks, the fractions of timestamps and
 durations, and the keys of maps. Each conversion is described by itself and found to be what the
 codecs compute.
 */
module Spelling {
  import opened Bytes
  import N = Numbers
  import R = Reading
  import P = Printing
  import F = FieldMasks
  import M = Maps
  import T = Times
  import D = Durations
  import O = Order

  // ---------------------------------------------------------------- names of field masks

  /** What the byte at `i` of a snake_case name becomes: underscores go, and a lowercase letter behind one is capitalised. */
  function CamelPiece(s: bytes, i: nat): bytes
    requires i < |s|
  {
    if s[i] as char == '_' then []
    else if i > 0 && s[i - 1] as char == '_' && 'a' <= s[i] as char <= 'z' then ['A' as int + (s[i] - 'a' as int)]
    else [s[i]]
  }

  function CamelPieces(s: bytes, i: nat): bytes
    requires i <= |s|
    decreases |s| - i
  {
    if i == |s| then [] else CamelPiece(s, i) + CamelPieces(s, i + 1)
  }

  /** What the byte at `i` of a camelCase name becomes: a capital gives an underscore and a lowercase letter. */
  function SnakePiece(s: bytes, i: nat): bytes
    requires i < |s|
  {
    if 'A' <= s[i] as char <= 'Z' then ['_' as int, 'a' as int + (s[i] - 'A' as int)] else [s[i]]
  }

  function SnakePieces(s: bytes, i: nat): bytes
    requires i <= |s|
    decreases |s| - i
  {
    if i == |s| then [] else SnakePiece(s, i) + SnakePieces(s, i + 1)
  }

  lemma {:induction false} CamelFromIs(s: bytes, i: nat)
    requires i <= |s|
    ensures F.CamelFrom(s[i..], i > 0 && s[i - 1] == UNDERSCORE) == CamelPieces(s, i)
    decreases |s| - i
  {
    if i < |s| {
      CamelFromIs(s, i + 1);
      assert s[i..][1..] == s[i + 1..];
    }
  }

  lemma CamelIs(s: bytes)
    ensures F.Camel(s) == CamelPieces(s, 0)
  {
    CamelFromIs(s, 0);
    assert s[0..] == s;
  }

  lemma {:induction false} SnakeFromIs(s: bytes, i: nat)
    requires i <= |s|
    ensures F.Snake(s[i..]) == SnakePieces(s, i)
    decreases |s| - i
  {
    if i < |s| {
      SnakeFromIs(s, i + 1);
      assert s[i..][1..] == s[i + 1..];
    }
  }

  lemma SnakeIs(s: bytes)
    ensures F.Snake(s) == SnakePieces(s, 0)
  {
    SnakeFromIs(s, 0);
    assert s[0..] == s;
  }

  predicate IsNameLetter(c: byte) {
    'a' <= c as char <= 'z' || 'A' <= c as char <= 'Z' || c as char == '_'
  }

  /** A full name: letters, digits and dots, with a letter at the start and behind every dot. */
  predicate IsFullName(s: bytes) {
    && s != [] && IsNameLetter(s[0])
    && (forall i :: 0 <= i < |s| ==> IsNameLetter(s[i]) || '0' <= s[i] as char <= '9' || s[i] as char == '.')
    && (forall i :: 0 <= i < |s| && s[i] as char == '.' ==> i + 1 < |s| && IsNameLetter(s[i + 1]))
  }

  /** The same for what follows a name, or a dot. */
  predicate IsNameRest(s: bytes, start: bool) {
    && (start ==> s != [] && IsNameLetter(s[0]))
    && (forall i :: 0 <= i < |s| ==> IsNameLetter(s[i]) || '0' <= s[i] as char <= '9' || s[i] as char == '.')
    && (forall i :: 0 <= i < |s| && s[i] as char == '.' ==> i + 1 < |s| && IsNameLetter(s[i + 1]))
  }

  lemma {:induction false} NameRestIs(s: bytes, start: bool)
    ensures F.ValidFrom(s, start) <==> IsNameRest(s, start)
  {
    if s != [] {
      var dot := !start && s[0] as char == '.';
      NameRestIs(s[1..], dot);
      if IsNameRest(s, start) {
        assert forall i :: 0 <= i < |s[1..]| ==> s[1..][i] == s[i + 1];
        assert IsNameRest(s[1..], dot);
      }
      if F.ValidFrom(s, start) {
        NameRestJoins(s, start);
      }
    }
  }

  lemma NameRestJoins(s: bytes, start: bool)
    requires s != [] && (if start then IsNameLetter(s[0]) else IsNameLetter(s[0]) || '0' <= s[0] as char <= '9' || s[0] as char == '.')
    requires IsNameRest(s[1..], !start && s[0] as char == '.')
    ensures IsNameRest(s, start)
  {
    forall i | 0 <= i < |s| ensures IsNameLetter(s[i]) || '0' <= s[i] as char <= '9' || s[i] as char == '.' {
      assert i > 0 ==> s[i] == s[1..][i - 1];
    }
    forall i | 0 <= i < |s| && s[i] as char == '.' ensures i + 1 < |s| && IsNameLetter(s[i + 1]) {
      if i > 0 {
        assert s[i] == s[1..][i - 1];
        assert s[i + 1] == s[1..][i];
      } else {
        assert s[1] == s[1..][0];
      }
    }
  }

  lemma NameIs(s: bytes)
    ensures F.ValidName(s) <==> IsFullName(s)
  {
    NameRestIs(s, true);
  }

  /** The text of a field mask: the camelCase paths with commas between them, if every path is a name that comes back. */
  lemma MaskShows(paths: seq<bytes>)
    ensures F.WriteMask(paths).Some? <==>
              forall i :: 0 <= i < |paths| ==> IsFullName(paths[i]) && SnakePieces(CamelPieces(paths[i], 0), 0) == paths[i]
    ensures F.WriteMask(paths).Some? ==>
              F.WriteMask(paths).value == P.Joined(seq(|paths|, i requires 0 <= i < |paths| => CamelPieces(paths[i], 0)))
  {
    forall i | 0 <= i < |paths|
      ensures F.PathOk(paths[i]) <==> IsFullName(paths[i]) && SnakePieces(CamelPieces(paths[i], 0), 0) == paths[i]
      ensures F.Camel(paths[i]) == CamelPieces(paths[i], 0)
    {
      NameIs(paths[i]);
      CamelIs(paths[i]);
      SnakeIs(F.Camel(paths[i]));
    }
    JoinIs(F.CamelAll(paths));
    assert F.CamelAll(paths) == seq(|paths|, i requires 0 <= i < |paths| => CamelPieces(paths[i], 0));
  }

  lemma {:induction false} JoinIs(parts: seq<bytes>)
    ensures F.Join(parts) == P.Joined(parts)
  {
    P.Signs();
    if |parts| > 1 {
      JoinIs(parts[1..]);
    }
  }

  /** A text is read as these paths exactly if they are written as that text without the space around it. */
  lemma MaskReads(text: bytes, paths: seq<bytes>)
    ensures F.ReadMask(text) == Some(paths) <==> F.WriteMask(paths) == Some(F.Trim(text))
  {
    if F.ReadMask(text) == Some(paths) {
      F.MaskWritesBack(text);
    }
    if F.WriteMask(paths) == Some(F.Trim(text)) {
      F.MaskReadsBack(paths);
      TrimmedStays(paths);
      hide F.Trim, F.Split, F.SnakeAll, F.WriteMask;
    }
  }

  lemma TrimmedStays(paths: seq<bytes>)
    requires F.WriteMask(paths).Some?
    ensures F.Trim(F.WriteMask(paths).value) == F.WriteMask(paths).value
  {
    var parts := F.CamelAll(paths);
    if paths != [] {
      forall i | 0 <= i < |paths| ensures parts[i] != [] && forall j :: 0 <= j < |parts[i]| ==> F.IsSolid(parts[i][j]) {
        F.CamelClean(paths[i]);
      }
      F.JoinClean(parts);
    }
    F.SolidStays(F.Join(parts));
  }

  function Concat(parts: seq<bytes>): bytes {
    if parts == [] then [] else parts[0] + Concat(parts[1..])
  }

  predicate AllSpaces(parts: seq<bytes>) {
    forall i :: 0 <= i < |parts| ==> F.SpaceLength(parts[i]) > 0
  }

  lemma {:induction false} ConcatEnd(parts: seq<bytes>, last: bytes)
    ensures Concat(parts + [last]) == Concat(parts) + last
  {
    if parts == [] {
      assert ([] + [last])[1..] == [];
    } else {
      assert (parts + [last])[1..] == parts[1..] + [last];
      ConcatEnd(parts[1..], last);
    }
  }

  lemma SpacesAround(s: bytes)
    ensures F.SpaceAhead(s) > 0 ==> F.SpaceLength(s[..F.SpaceAhead(s)]) > 0
    ensures F.SpaceBehind(s) > 0 ==> F.SpaceLength(s[|s| - F.SpaceBehind(s)..]) > 0
  {
    hide F.SpaceLength, F.Trim;
  }

  lemma OneSpace(s: bytes)
    requires F.SpaceLength(s) > 0
    ensures AllSpaces([s])
  {
    hide F.SpaceLength;
  }

  lemma TrimStep(s: bytes)
    ensures F.Trim(s) ==
            if F.SpaceAhead(s) > 0 then F.Trim(s[F.SpaceAhead(s)..])
            else if F.SpaceBehind(s) > 0 then F.Trim(s[..|s| - F.SpaceBehind(s)])
            else s
  {
    hide F.SpaceAhead, F.SpaceBehind;
  }

  lemma SpacesJoin(a: seq<bytes>, b: seq<bytes>)
    requires AllSpaces(a) && AllSpaces(b)
    ensures AllSpaces(a + b)
  {
    hide F.SpaceLength;
  }

  lemma FrontJoins(s: bytes, n: nat, front: seq<bytes>, mid: bytes, back: seq<bytes>)
    requires n <= |s| && s[n..] == Concat(front) + mid + Concat(back)
    ensures s == Concat([s[..n]] + front) + mid + Concat(back)
  {
    assert ([s[..n]] + front)[1..] == front;
    assert Concat([s[..n]] + front) == s[..n] + Concat(front);
    hide Concat;
    assert s == s[..n] + s[n..];
  }

  lemma BackJoins(s: bytes, n: nat, front: seq<bytes>, mid: bytes, back: seq<bytes>)
    requires n <= |s| && s[..n] == Concat(front) + mid + Concat(back)
    ensures s == Concat(front) + mid + Concat(back + [s[n..]])
  {
    hide Concat;
    ConcatEnd(back, s[n..]);
    assert s == s[..n] + s[n..];
  }

  /** Trimming takes away whole spaces at both ends, and leaves none there. */
  lemma {:induction false} TrimExact(s: bytes) returns (front: seq<bytes>, back: seq<bytes>)
    ensures AllSpaces(front) && AllSpaces(back) && s == Concat(front) + F.Trim(s) + Concat(back)
    ensures F.SpaceAhead(F.Trim(s)) == 0 && F.SpaceBehind(F.Trim(s)) == 0
    decreases |s|
  {
    hide *;
    var n, k := F.SpaceAhead(s), F.SpaceBehind(s);
    SpacesAround(s);
    TrimStep(s);
    if n > 0 {
      OneSpace(s[..n]);
      front, back := TrimExact(s[n..]);
      FrontJoins(s, n, front, F.Trim(s), back);
      SpacesJoin([s[..n]], front);
      front := [s[..n]] + front;
    } else if k > 0 {
      OneSpace(s[|s| - k..]);
      front, back := TrimExact(s[..|s| - k]);
      BackJoins(s, |s| - k, front, F.Trim(s), back);
      SpacesJoin(back, [s[|s| - k..]]);
      back := back + [s[|s| - k..]];
    } else {
      front, back := [], [];
      NoParts(s);
    }
  }

  lemma NoParts(s: bytes)
    ensures AllSpaces([]) && s == Concat([]) + s + Concat([])
  {
  }

  // ---------------------------------------------------------------- fractions, timestamps and durations

  /** `d` is one of the forms for a fraction of a second of so many nanoseconds. */
  predicate IsFraction(d: bytes, nanos: nat) {
    && (forall i :: 0 <= i < |d| ==> '0' <= d[i] as char <= '9')
    && ((|d| == 0 && nanos == 0) || (|d| == 3 && R.ValueOf(d) * 1_000_000 == nanos)
        || (|d| == 6 && R.ValueOf(d) * 1_000 == nanos) || (|d| == 9 && R.ValueOf(d) == nanos))
  }

  lemma PadIs(v: nat, n: nat, d: bytes)
    requires v < T.Pow10(n)
    ensures d == T.Pad(v, n) <==> |d| == n && (forall i :: 0 <= i < |d| ==> '0' <= d[i] as char <= '9') && R.ValueOf(d) == v
  {
    if d == T.Pad(v, n) {
      T.PadValue(v, n);
      R.ValueOfIs(d);
    }
    if |d| == n && forall i :: 0 <= i < |d| ==> '0' <= d[i] as char <= '9' {
      R.ValueOfIs(d);
      T.PadUnique(d);
    }
  }

  lemma FractionIs(nanos: nat)
    requires nanos < 1_000_000_000
    ensures IsFraction(T.FracDigits(nanos), nanos)
  {
    T.Powers();
    hide T.Pow10, T.Pad, R.ValueOf;
    if nanos % 1_000_000 == 0 {
      PadIs(nanos / 1_000_000, 3, T.Pad(nanos / 1_000_000, 3));
    } else if nanos % 1_000 == 0 {
      PadIs(nanos / 1_000, 6, T.Pad(nanos / 1_000, 6));
    } else {
      PadIs(nanos, 9, T.Pad(nanos, 9));
    }
  }

  /** What is printed is the one shortest of the forms. */
  lemma FractionShortest(nanos: nat, d: bytes)
    requires nanos < 1_000_000_000 && IsFraction(d, nanos)
    ensures |T.FracDigits(nanos)| <= |d|
    ensures |T.FracDigits(nanos)| == |d| ==> T.FracDigits(nanos) == d
  {
    hide *;
    FractionIs(nanos);
    FractionLength(nanos);
    FractionDivides(d, nanos);
    FractionDivides(T.FracDigits(nanos), nanos);
    if |T.FracDigits(nanos)| == |d| {
      FractionUnique(T.FracDigits(nanos), d, nanos);
    }
  }

  lemma FractionDivides(d: bytes, nanos: nat)
    requires IsFraction(d, nanos)
    ensures |d| == 0 || |d| == 3 || |d| == 6 || |d| == 9
    ensures |d| == 0 ==> nanos == 0
    ensures |d| == 3 ==> nanos % 1_000_000 == 0
    ensures |d| == 6 ==> nanos % 1_000 == 0
  {
    hide R.ValueOf;
  }

  lemma FractionUnique(d: bytes, e: bytes, nanos: nat)
    requires IsFraction(d, nanos) && IsFraction(e, nanos) && |d| == |e|
    ensures d == e
  {
    hide R.ValueOf;
    SameDigits(d, e);
  }

  lemma FractionLength(nanos: nat)
    ensures |T.FracDigits(nanos)| ==
            if nanos == 0 then 0 else if nanos % 1_000_000 == 0 then 3 else if nanos % 1_000 == 0 then 6 else 9
  {
    hide T.Pad;
  }

  lemma SameDigits(d: bytes, e: bytes)
    requires AllDigits(d) && AllDigits(e) && |d| == |e| && (d == [] || R.ValueOf(d) == R.ValueOf(e))
    ensures d == e
  {
    R.ValueOfIs(d);
    R.ValueOfIs(e);
    T.PadUnique(d);
    T.PadUnique(e);
  }

  /** The layout of a timestamp; each number has the digits that `PadIs` describes. */
  lemma TimestampForm(secs: int, nanos: nat)
    requires T.ValidTimestamp(secs, nanos)
    ensures var p := T.StampOf(secs, nanos);
            && T.ValidStamp(p)
            && T.TimestampText(secs, nanos) ==
               T.Pad(p.date.year, 4) + Ascii("-") + T.Pad(p.date.month, 2) + Ascii("-") + T.Pad(p.date.day, 2) + Ascii("T") +
               T.Pad(p.hour, 2) + Ascii(":") + T.Pad(p.minute, 2) + Ascii(":") + T.Pad(p.second, 2) +
               ((if nanos == 0 then [] else Ascii(".") + T.FracDigits(nanos)) + Ascii("Z"))
  {
    T.StampOfValid(secs, nanos);
    assert Ascii("-") == [MINUS] && Ascii("T") == [T.TEE] && Ascii(":") == [COLON] && Ascii(".") == [DOT] && Ascii("Z") == [T.ZED];
    hide Ascii, T.Pad, T.ValidStamp;
  }

  /** The layout of a duration: one sign for both parts, the seconds, the fraction if there is one, and an s. */
  lemma DurationForm(secs: int, nanos: int)
    ensures D.DurationText(secs, nanos) ==
            (if secs < 0 || nanos < 0 then Ascii("-") else []) + (N.Decimal(if secs < 0 then -secs else secs) +
            ((if nanos == 0 then [] else Ascii(".") + T.FracDigits(if nanos < 0 then -nanos else nanos)) + Ascii("s")))
  {
    assert Ascii("-") == [MINUS] && Ascii(".") == [DOT] && Ascii("s") == [T.ESS];
    hide Ascii, N.Digits, T.Pad;
  }

  /** Durations within ten thousand years, with parts of one sign. */
  lemma DurationBounds(secs: int, nanos: int)
    ensures D.ValidDuration(secs, nanos) <==>
              && -315576000000 <= secs <= 315576000000 && -1000000000 < nanos < 1000000000
              && !(secs < 0 && nanos > 0) && !(secs > 0 && nanos < 0)
  {
  }

  /** `s` starts like the pattern, in which `d` stands for any digit. */
  predicate StartsLike(s: bytes, pattern: string) {
    |pattern| <= |s| && forall i :: 0 <= i < |pattern| ==> FitsChar(s[i], pattern[i])
  }

  predicate FitsChar(c: byte, p: char) {
    if p == 'd' then '0' <= c as char <= '9' else c as char == p
  }

  /** A point, `n` digits, and no further digit. */
  predicate HasFraction(t: bytes, n: nat) {
    && n < |t| && t[0] as char == '.'
    && (forall i :: 1 <= i <= n ==> '0' <= t[i] as char <= '9')
    && (n + 1 < |t| ==> !('0' <= t[n + 1] as char <= '9'))
  }

  lemma LayoutIs(s: bytes)
    ensures StartsLike(s, "dddd-dd-ddTdd:dd:dd") && |s| >= 20 <==>
              T.Punctuated(s) && T.FixedDigits(s, 0, 4).Some? && T.FixedDigits(s, 5, 2).Some? && T.FixedDigits(s, 8, 2).Some? &&
              T.FixedDigits(s, 11, 2).Some? && T.FixedDigits(s, 14, 2).Some? && T.FixedDigits(s, 17, 2).Some?
  {
    if |s| >= 20 {
      DigitsAre(s, 0, 4);
      DigitsAre(s, 5, 2);
      DigitsAre(s, 8, 2);
      DigitsAre(s, 11, 2);
      DigitsAre(s, 14, 2);
      DigitsAre(s, 17, 2);
      LayoutChars(s);
      hide StartsLike, T.FixedDigits;
    }
  }

  lemma DigitsAre(s: bytes, off: nat, n: nat)
    requires off + n <= |s|
    ensures T.FixedDigits(s, off, n).Some? <==> forall i :: off <= i < off + n ==> FitsChar(s[i], 'd')
  {
    assert forall i :: off <= i < off + n ==> s[off..off + n][i - off] == s[i];
  }

  lemma LayoutChars(s: bytes)
    requires |s| >= 20
    ensures StartsLike(s, "dddd-dd-ddTdd:dd:dd") <==>
              && (forall i :: 0 <= i < 4 ==> FitsChar(s[i], 'd')) && (forall i :: 5 <= i < 7 ==> FitsChar(s[i], 'd'))
              && (forall i :: 8 <= i < 10 ==> FitsChar(s[i], 'd')) && (forall i :: 11 <= i < 13 ==> FitsChar(s[i], 'd'))
              && (forall i :: 14 <= i < 16 ==> FitsChar(s[i], 'd')) && (forall i :: 17 <= i < 19 ==> FitsChar(s[i], 'd'))
              && s[4] as char == '-' && s[7] as char == '-' && s[10] as char == 'T' && s[13] as char == ':' && s[16] as char == ':'
  {
    var p := "dddd-dd-ddTdd:dd:dd";
    assert |p| == 19;
    assert p[4] == '-' && p[7] == '-' && p[10] == 'T' && p[13] == ':' && p[16] == ':';
    assert forall i :: 0 <= i < 19 && i != 4 && i != 7 && i != 10 && i != 13 && i != 16 ==> p[i] == 'd';
    if StartsLike(s, p) {
      assert FitsChar(s[4], p[4]) && FitsChar(s[7], p[7]) && FitsChar(s[10], p[10]) && FitsChar(s[13], p[13]) && FitsChar(s[16], p[16]);
    }
  }

  lemma RunIs(t: bytes, n: nat)
    requires t != [] && t[0] as char == '.'
    ensures HasFraction(t, n) <==> n == T.Run(t[1..])
  {
    var r := T.Run(t[1..]);
    assert forall i :: 1 <= i <= r ==> t[i] == t[1..][..r][i - 1];
    assert r < |t[1..]| ==> t[r + 1] == t[1..][r];
  }

  /**
   A text is left to the library parser exactly if it is not laid out like a timestamp, or something
   other than a Z stands behind the seconds or behind a fraction of one to nine digits.
   */
  lemma OtherForm(s: bytes)
    ensures T.ParseTimestamp(s).NotUTC? <==>
              || !(StartsLike(s, "dddd-dd-ddTdd:dd:dd") && |s| >= 20)
              || (s[19] as char != '.' && s[19..] != Ascii("Z"))
              || (exists n :: 1 <= n <= 9 && HasFraction(s[19..], n) && s[19 + 1 + n..] != Ascii("Z"))
  {
    LayoutIs(s);
    assert Ascii("Z") == [T.ZED];
    hide StartsLike, T.Punctuated, T.FixedDigits, Ascii, T.Checked;
    if StartsLike(s, "dddd-dd-ddTdd:dd:dd") && |s| >= 20 {
      TailForm(s);
    }
  }

  lemma TailForm(s: bytes)
    requires |s| >= 20
    ensures s[19] as char == '.' ==>
              ((exists n :: 1 <= n <= 9 && HasFraction(s[19..], n) && s[19 + 1 + n..] != [T.ZED]) <==>
               var n := T.Run(s[19..][1..]); 1 <= n <= 9 && s[19..][1 + n..] != [T.ZED])
  {
    if s[19] as char == '.' {
      var n := T.Run(s[19..][1..]);
      assert s[19..][1 + n..] == s[19 + 1 + n..];
      RunIs(s[19..], n);
      if m :| 1 <= m <= 9 && HasFraction(s[19..], m) && s[19 + 1 + m..] != [T.ZED] {
        RunIs(s[19..], m);
      }
    }
  }

  // ---------------------------------------------------------------- keys of maps

  /** The number of a text of digits, with an optional sign for signed keys. */
  ghost predicate IsNumber(s: bytes, signed: bool, n: int) {
    if signed then R.Decimal(R.Magnitude(s)) && n == R.WithSign(s, R.ValueOf(R.Magnitude(s)))
    else R.Decimal(s) && n == R.ValueOf(s)
  }

  /** Generated code takes `s` for the key: the twelve spellings of booleans, integers of the width of the kind, any string. */
  ghost predicate Spells(kind: M.KeyKind, s: bytes, key: M.MapKey) {
    match kind
    case BoolKeys =>
      || (key == M.BoolKey(true) && s in [Ascii("1"), Ascii("t"), Ascii("T"), Ascii("TRUE"), Ascii("true"), Ascii("True")])
      || (key == M.BoolKey(false) && s in [Ascii("0"), Ascii("f"), Ascii("F"), Ascii("FALSE"), Ascii("false"), Ascii("False")])
    case Int32Keys => key.IntKey? && IsNumber(s, true, key.n) && -2147483648 <= key.n <= 2147483647
    case Int64Keys => key.IntKey? && IsNumber(s, true, key.n) && -9223372036854775808 <= key.n <= 9223372036854775807
    case Uint32Keys => key.IntKey? && IsNumber(s, false, key.n) && key.n <= 4294967295
    case Uint64Keys => key.IntKey? && IsNumber(s, false, key.n) && key.n <= 18446744073709551615
    case StringKeyKind => key == M.StringKey(s)
  }

  lemma TrueWords()
    ensures Ascii("1") == [49] && Ascii("t") == [116] && Ascii("T") == [84]
    ensures Ascii("TRUE") == [84, 82, 85, 69] && Ascii("true") == TRUE && Ascii("True") == [84, 114, 117, 101]
  {
  }

  lemma FalseWords()
    ensures Ascii("0") == [48] && Ascii("f") == [102] && Ascii("F") == [70]
    ensures Ascii("FALSE") == [70, 65, 76, 83, 69] && Ascii("false") == FALSE && Ascii("False") == [70, 97, 108, 115, 101]
  {
  }

  lemma Booleans(s: bytes)
    ensures s in M.TRUTHS <==> s in [Ascii("1"), Ascii("t"), Ascii("T"), Ascii("TRUE"), Ascii("true"), Ascii("True")]
    ensures s in M.FALSEHOODS <==> s in [Ascii("0"), Ascii("f"), Ascii("F"), Ascii("FALSE"), Ascii("false"), Ascii("False")]
  {
    hide Ascii;
    TrueWords();
    FalseWords();
  }

  lemma TruthHead(s: bytes)
    requires s in M.TRUTHS
    ensures s != [] && (s[0] == 49 || s[0] == 116 || s[0] == 84)
  {
  }

  lemma FalsehoodHead(s: bytes)
    requires s in M.FALSEHOODS
    ensures s != [] && (s[0] == 48 || s[0] == 102 || s[0] == 70)
  {
  }

  lemma NotBoth(s: bytes)
    ensures s in M.TRUTHS ==> s !in M.FALSEHOODS
  {
    hide M.TRUTHS, M.FALSEHOODS;
    if s in M.TRUTHS && s in M.FALSEHOODS {
      TruthHead(s);
      FalsehoodHead(s);
    }
  }

  lemma IntKeys(s: bytes, n: int)
    ensures N.ParseInt64(s) == N.Number(n) <==> IsNumber(s, true, n) && -9223372036854775808 <= n <= 9223372036854775807
    ensures N.ParseUint64(s) == N.Number(n) <==> IsNumber(s, false, n) && n <= 18446744073709551615
  {
    R.ParseExact(s);
    R.ParseExact(R.Magnitude(s));
    R.NoDigits();
    assert N.DropSign(s) == R.Magnitude(s);
    hide N.ParseUint64, R.Overflows, R.Decimal;
  }

  /** The keys that generated code reads, and the table decoder, which takes only two spellings of booleans. */
  lemma KeyExact(kind: M.KeyKind, s: bytes, key: M.MapKey)
    ensures M.ParseKey(kind, s) == Some(key) <==> Spells(kind, s, key)
    ensures M.KeyFor(M.ByCode, kind, s) == Some(key) <==> Spells(kind, s, key)
    ensures M.KeyFor(M.ByTable, kind, s) == Some(key) <==>
            Spells(kind, s, key) && (kind.BoolKeys? ==> s == Ascii("true") || s == Ascii("false"))
  {
    TrueWords();
    FalseWords();
    Booleans(s);
    NotBoth(s);
    if key.IntKey? {
      IntKeys(s, key.n);
    }
    hide N.ParseInt64, N.ParseUint64, IsNumber, Ascii;
    if kind.BoolKeys? {
      assert TRUE in M.TRUTHS by { assert M.TRUTHS[4] == TRUE; }
      assert FALSE in M.FALSEHOODS by { assert M.FALSEHOODS[4] == FALSE; }
    }
  }

  /** Integers come in numeric order, false before true, and strings in byte order. */
  ghost predicate Precedes(a: M.MapKey, b: M.MapKey) {
    || (a.IntKey? && b.IntKey? && a.n < b.n)
    || (a == M.BoolKey(false) && b == M.BoolKey(true))
    || (a.StringKey? && b.StringKey? && P.Before(a.s, b.s))
  }

  lemma PrecedesIs(kind: M.KeyKind, a: M.MapKey, b: M.MapKey)
    requires M.KeyOk(kind, a) && M.KeyOk(kind, b)
    ensures M.KeyLess(a, b) <==> Precedes(a, b)
  {
    if a.StringKey? && b.StringKey? {
      P.BeforeIs(a.s, b.s);
    }
    hide P.Before, O.LexLess;
  }
}
