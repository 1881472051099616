/**
 The Decoder of the generated code as an object: a cursor that moves over the input. Each method is
 proved against the reader function of the same job. After an error only acceptance is promised.
 */
module Decoders {
  import opened Bytes
  import C = Cursor
  import G = Generated
  import N = Numbers
  import T = Text

  lemma NullBytes(t: bytes)
    ensures StartsWith(t, NULL) <==> |t| >= 4 && t[0] == 110 && t[1] == 117 && t[2] == 108 && t[3] == 108
  {
    if |t| >= 4 {
      assert t[..4] == [t[0], t[1], t[2], t[3]];
    }
  }

  lemma Drop(s: bytes, i: nat, j: nat)
    requires i + j <= |s|
    ensures s[i..][j..] == s[i + j..]
  {
  }

  class Decoder {
    const data: bytes
    var off: nat
    var depth: int

    ghost predicate Valid()
      reads this
    {
      off <= |data|
    }

    /** The unread input. */
    ghost function Rest(): bytes
      requires Valid()
      reads this
    {
      data[off..]
    }

    /** The cursor stands in front of `rest`, at this nesting. */
    ghost predicate Stands(rest: bytes, nesting: int)
      reads this
    {
      Valid() && Rest() == rest && depth == nesting
    }

    constructor (data: bytes)
      ensures this.data == data && Stands(data, 0)
    {
      this.data := data;
      off, depth := 0, 0;
    }

    /** Mark and Reset: going back to an earlier place restores what was unread and the nesting. */
    method Mark() returns (o: nat, n: int)
      ensures o == off && n == depth
    {
      o, n := off, depth;
    }

    method Reset(o: nat, n: int)
      requires o <= |data|
      modifies this
      ensures Stands(data[o..], n)
    {
      off, depth := o, n;
    }

    method SkipWhitespace()
      requires Valid()
      modifies this`off
      ensures Stands(SkipWs(old(Rest())), old(depth)) && off >= old(off)
    {
      while off < |data|
        invariant Valid() && off >= old(off) && SkipWs(Rest()) == SkipWs(old(Rest()))
        decreases |data| - off
      {
        if data[off] == 32 || data[off] == 9 || data[off] == 13 || data[off] == 10 {
          Drop(data, off, 1);
          off := off + 1;
        } else {
          break;
        }
      }
    }

    method Finish() returns (err: bool)
      requires Valid()
      modifies this`off
      ensures err <==> SkipWs(old(Rest())) != []
    {
      SkipWhitespace();
      err := off != |data|;
    }

    /** The next byte, if there is one. */
    lemma Head()
      requires Valid()
      ensures off < |data| <==> Rest() != []
      ensures off < |data| ==> Rest()[0] == data[off] && Rest()[1..] == data[off + 1..]
    {
    }

    // -------------------------------------------------------------- literals

    method ReadNull() returns (found: bool)
      requires Valid()
      modifies this`off
      ensures var n := C.ReadNull(old(Rest()));
              found == n.Some? && Stands(if found then n.value else SkipWs(old(Rest())), old(depth))
      ensures off >= old(off)
    {
      SkipWhitespace();
      ghost var t := Rest();
      if off + 4 <= |data| && data[off] == 110 && data[off + 1] == 117 && data[off + 2] == 108 && data[off + 3] == 108 {
        NullBytes(t);
        Drop(data, off, 4);
        off := off + 4;
        return true;
      }
      NullBytes(t);
      return false;
    }

    method ReadBool() returns (v: bool, err: bool)
      requires Valid()
      modifies this`off
      ensures var r := C.ReadBool(old(Rest()));
              err == r.Err? && Valid() && (!err ==> v == r.value && Stands(r.rest, old(depth)))
      ensures off >= old(off)
    {
      SkipWhitespace();
      if off + 4 <= |data| && data[off..off + 4] == TRUE {
        assert Rest()[..4] == data[off..off + 4];
        Drop(data, off, 4);
        off := off + 4;
        return true, false;
      }
      assert |Rest()| >= 4 ==> Rest()[..4] == data[off..off + 4];
      if off + 5 <= |data| && data[off..off + 5] == FALSE {
        assert Rest()[..5] == data[off..off + 5];
        Drop(data, off, 5);
        off := off + 5;
        return false, false;
      }
      assert |Rest()| >= 5 ==> Rest()[..5] == data[off..off + 5];
      return false, true;
    }

    // -------------------------------------------------------------- strings

    /** The loop of readStringBytes, behind the opening quote. */
    method ScanToQuote() returns (s: bytes, hasEscapes: bool, err: bool)
      requires Valid()
      modifies this`off
      ensures var r := T.ScanString(old(Rest()));
              err == r.Unterminated? && Valid() && (!err ==> s == r.raw && hasEscapes == r.escaped && Stands(r.rest, old(depth)))
      ensures off >= old(off)
    {
      hide T.ScanString, Shift;
      s, hasEscapes, err := [], false, true;
      var start := off;
      ShiftNothing(T.ScanString(Rest()));
      assert data[start..off] == [];
      while off < |data|
        invariant start <= off <= |data|
        invariant T.ScanString(old(Rest())) == Shift(data[start..off], hasEscapes, T.ScanString(Rest()))
        decreases |data| - off
      {
        Head();
        ghost var t := Rest();
        ScanStep(t);
        var c := data[off];
        if c == QUOTE {
          s := data[start..off];
          off := off + 1;
          ShiftEnd(s, hasEscapes, Rest());
          return s, hasEscapes, false;
        }
        if c == BACKSLASH {
          if off + 1 >= |data| {
            ShiftFails(data[start..off], hasEscapes);
            return;
          }
          Drop(data, off, 2);
          assert data[start..off + 2] == data[start..off] + t[..2];
          ShiftTwice(data[start..off], t[..2], T.ScanString(t[2..]));
          hasEscapes := true;
          off := off + 2;
          continue;
        }
        if c < 0x20 {
          ShiftFails(data[start..off], hasEscapes);
          return;
        }
        assert data[start..off + 1] == data[start..off] + [c];
        ShiftOne(data[start..off], c, hasEscapes, T.ScanString(t[1..]));
        off := off + 1;
      }
      ScanStep(Rest());
      ShiftFails(data[start..off], hasEscapes);
    }

    /** readStringBytes. */
    method ReadStringBytes() returns (v: bytes, err: bool)
      requires Valid()
      modifies this`off
      ensures var r := T.ReadString(old(Rest()));
              err == r.Err? && Valid() && (!err ==> v == r.value && Stands(r.rest, old(depth)))
      ensures off >= old(off)
    {
      hide T.ScanString, T.Unescape;
      v, err := [], true;
      SkipWhitespace();
      Head();
      if off >= |data| || data[off] != QUOTE {
        return;
      }
      off := off + 1;
      var s, hasEscapes, bad := ScanToQuote();
      if bad {
        return;
      }
      if hasEscapes {
        v, err := UnescapeString(s);
      } else {
        v, err := s, false;
      }
    }

    /** readObjectKeyFast. */
    method ReadObjectKeyFast() returns (v: bytes, err: bool)
      requires Valid()
      modifies this`off
      ensures var r := T.ReadKeyFast(old(Rest()));
              err == r.Err? && Valid() && (!err ==> v == r.value && Stands(r.rest, old(depth)))
      ensures off >= old(off)
    {
      hide T.ReadString;
      v, err := [], true;
      Head();
      if off >= |data| || data[off] != QUOTE {
        return;
      }
      off := off + 1;
      var start := off;
      ghost var scan := T.ScanKey(Rest());
      KeyShiftNothing(scan);
      assert data[start..off] == [];
      while off < |data|
        invariant start <= off <= |data|
        invariant scan == KeyShift(data[start..off], T.ScanKey(Rest()))
        decreases |data| - off
      {
        Head();
        var c := data[off];
        if c == QUOTE {
          v := data[start..off];
          assert v + [] == v;
          off := off + 1;
          return v, false;
        }
        if c == BACKSLASH || c >= 0x80 {
          off := start - 1;
          v, err := ReadStringBytes();
          return;
        }
        if c < 0x20 {
          return;
        }
        assert data[start..off + 1] == data[start..off] + [c];
        KeyShiftOne(data[start..off], c, T.ScanKey(Rest()[1..]));
        off := off + 1;
      }
    }

    // -------------------------------------------------------------- numbers

    /** The overflow-checked loop that readSimpleInt64Token and readSimpleUint64Token share. */
    method ReadDigits(limit: nat) returns (u: nat, ok: bool, err: bool)
      requires Valid()
      modifies this`off
      ensures Valid() && off >= old(off)
      ensures var r := N.DigitLoop(old(Rest()), 0, limit);
              && (err <==> r.OutOfRange?) && (ok <==> !r.NotSimple?)
              && (r.Simple? ==> u == r.value && Stands(r.rest, old(depth)))
    {
      u, ok, err := 0, false, false;
      ghost var loop := N.DigitLoop(Rest(), 0, limit);
      while off < |data|
        invariant old(off) <= off <= |data| && u <= limit && loop == N.DigitLoop(Rest(), u, limit)
        decreases |data| - off
      {
        Head();
        var c := data[off];
        if c < ZERO || c > NINE {
          if c == DOT || c == 101 || c == 69 {
            return;
          }
          if !IsTerminator(c) {
            return;
          }
          break;
        }
        if u > limit / 10 {
          return 0, true, true;
        }
        u := u * 10;
        var digit: nat := c - ZERO;
        if u > limit - digit {
          return 0, true, true;
        }
        u := u + digit;
        off := off + 1;
      }
      Head();
      ok := true;
    }

    /** Whether a digit comes next that no second digit behind a zero follows. */
    method AtLeadingDigit() returns (r: bool)
      requires Valid()
      ensures r == N.LeadsWithDigit(Rest())
    {
      Head();
      if off >= |data| || data[off] < ZERO || data[off] > NINE {
        return false;
      }
      assert |Rest()| > 1 ==> Rest()[1] == data[off + 1];
      return !(data[off] == ZERO && off + 1 < |data| && ZERO <= data[off + 1] <= NINE);
    }

    /** readSimpleInt64Token: when this is not a simple token, the cursor is back where it was. */
    method ReadSimpleInt64Token() returns (v: int, ok: bool, err: bool)
      requires Valid()
      modifies this`off
      ensures Valid() && off >= old(off)
      ensures var r := N.SimpleInt64(old(Rest()));
              && (ok <==> !r.NotSimple?) && (err <==> r.OutOfRange?)
              && (r.NotSimple? ==> Stands(old(Rest()), old(depth)))
              && (r.Simple? ==> v == r.value && Stands(r.rest, old(depth)))
    {
      hide N.DigitLoop, N.LeadsWithDigit;
      v, ok, err := 0, false, false;
      Head();
      var start := off;
      var neg := false;
      if off < |data| && data[off] == MINUS {
        neg := true;
        off := off + 1;
      }
      var leads := AtLeadingDigit();
      if !leads {
        off := start;
        return;
      }
      v, ok, err := ReadDigits(if neg then N.MAX_INT64 + 1 else N.MAX_INT64);
      if !ok {
        off := start;
      }
      if neg {
        v := -v;
      }
    }

    /** readSimpleUint64Token. */
    method ReadSimpleUint64Token() returns (v: int, ok: bool, err: bool)
      requires Valid()
      modifies this`off
      ensures Valid() && off >= old(off)
      ensures var r := N.SimpleUint64(old(Rest()));
              && (ok <==> !r.NotSimple?) && (err <==> r.OutOfRange?)
              && (r.NotSimple? ==> Stands(old(Rest()), old(depth)))
              && (r.Simple? ==> v == r.value && Stands(r.rest, old(depth)))
    {
      hide N.DigitLoop, N.LeadsWithDigit;
      v, ok, err := 0, false, false;
      var start := off;
      var leads := AtLeadingDigit();
      if !leads {
        return;
      }
      v, ok, err := ReadDigits(N.MAX_UINT64);
      if !ok {
        off := start;
      }
    }

    /** The loops over runs of digits. */
    method PassDigits()
      requires Valid()
      modifies this`off
      ensures Stands(N.SkipDigits(old(Rest())), old(depth)) && off >= old(off)
    {
      while off < |data| && ZERO <= data[off] <= NINE
        invariant Valid() && off >= old(off) && N.SkipDigits(Rest()) == N.SkipDigits(old(Rest()))
        decreases |data| - off
      {
        Head();
        off := off + 1;
      }
      Head();
    }

    /** At least one digit. */
    method PassSomeDigits() returns (err: bool)
      requires Valid()
      modifies this`off
      ensures var r := N.SomeDigits(old(Rest()));
              err == r.None? && Valid() && (!err ==> Stands(r.value, old(depth)))
      ensures off >= old(off)
    {
      Head();
      if off >= |data| || data[off] < ZERO || data[off] > NINE {
        return true;
      }
      off := off + 1;
      PassDigits();
      return false;
    }

    method PassIntPart() returns (err: bool)
      requires Valid()
      modifies this`off
      ensures var r := N.IntPart(old(Rest()));
              err == r.None? && Valid() && (!err ==> Stands(r.value, old(depth)))
      ensures off >= old(off)
    {
      hide N.SkipDigits;
      Head();
      if off >= |data| {
        return true;
      }
      if data[off] == ZERO {
        off := off + 1;
      } else if ZERO < data[off] <= NINE {
        off := off + 1;
        PassDigits();
      } else {
        return true;
      }
      return false;
    }

    method PassFraction() returns (err: bool)
      requires Valid()
      modifies this`off
      ensures var r := N.FracPart(old(Rest()));
              err == r.None? && Valid() && (!err ==> Stands(r.value, old(depth)))
      ensures off >= old(off)
    {
      hide N.SomeDigits;
      Head();
      if off < |data| && data[off] == DOT {
        off := off + 1;
        err := PassSomeDigits();
        return;
      }
      return false;
    }

    method PassExponent() returns (err: bool)
      requires Valid()
      modifies this`off
      ensures var r := N.ExpPart(old(Rest()));
              err == r.None? && Valid() && (!err ==> Stands(r.value, old(depth)))
      ensures off >= old(off)
    {
      hide N.SomeDigits;
      Head();
      if off < |data| && (data[off] == 101 || data[off] == 69) {
        off := off + 1;
        Head();
        if off < |data| && (data[off] == PLUS || data[off] == MINUS) {
          off := off + 1;
        }
        err := PassSomeDigits();
        return;
      }
      return false;
    }

    /** The token of readJSONNumberToken up to its end. */
    method PassNumber() returns (err: bool)
      requires Valid()
      modifies this`off
      ensures var r := N.NumberEnd(old(Rest()));
              err == r.None? && Valid() && (!err ==> Stands(r.value, old(depth)))
      ensures off >= old(off)
    {
      hide N.IntPart, N.FracPart, N.ExpPart;
      Head();
      if off < |data| && data[off] == MINUS {
        off := off + 1;
      }
      err := PassIntPart();
      if err {
        return;
      }
      err := PassFraction();
      if err {
        return;
      }
      err := PassExponent();
    }

    /** readJSONNumberToken. */
    method ReadJSONNumberToken() returns (token: bytes, err: bool)
      requires Valid()
      modifies this`off
      ensures var r := N.ReadNumberToken(old(Rest()));
              err == r.Err? && Valid() && (!err ==> token == r.value && Stands(r.rest, old(depth)))
      ensures off >= old(off)
    {
      hide N.NumberEnd;
      token := [];
      SkipWhitespace();
      var start := off;
      ghost var t := Rest();
      err := PassNumber();
      if err {
        return;
      }
      Head();
      if off < |data| && !IsTerminator(data[off]) {
        while off < |data| && !IsTerminator(data[off])
          invariant off <= |data|
        {
          off := off + 1;
        }
        return [], true;
      }
      token := data[start..off];
      assert token == t[..|t| - |Rest()|];
    }

    /** readNumberLike. */
    method ReadNumberLike() returns (text: bytes, err: bool)
      requires Valid()
      modifies this`off
      ensures var r := N.ReadNumberLike(old(Rest()));
              err == r.Err? && Valid() && (!err ==> text == r.value && Stands(r.rest, old(depth)))
      ensures off >= old(off)
    {
      ghost var s := Rest();
      SkipWhitespace();
      Head();
      SkippedReads(s);
      hide N.ReadNumberToken, T.ReadString;
      if off < |data| && data[off] == QUOTE {
        text, err := ReadStringBytes();
      } else {
        text, err := ReadJSONNumberToken();
      }
    }

    /** readInt64. What strconv.ParseFloat makes of other texts is left open. */
    method ReadInt64(fl: N.Floats) returns (v: int, err: bool)
      requires Valid()
      modifies this`off
      ensures var r := N.ReadInt64(fl, old(Rest()));
              err == r.Err? && Valid() && (!err ==> v == r.value && Stands(r.rest, old(depth)))
      ensures off >= old(off)
    {
      ghost var s := Rest();
      v, err := 0, true;
      SkipWhitespace();
      Head();
      SkippedReads(s);
      hide N.SimpleInt64, N.ReadNumberLike, N.ParseInt64;
      if off < |data| && data[off] != QUOTE {
        var n, ok, bad := ReadSimpleInt64Token();
        if ok {
          return n, bad;
        }
      }
      var text, bad := ReadNumberLike();
      if bad {
        return;
      }
      match N.OrFloat(N.ParseInt64(text), fl.signed(text))
      case None =>
      case Some(n) => v, err := n, false;
    }

    /** readUint64. */
    method ReadUint64(fl: N.Floats) returns (v: int, err: bool)
      requires Valid()
      modifies this`off
      ensures var r := N.ReadUint64(fl, old(Rest()));
              err == r.Err? && Valid() && (!err ==> v == r.value && Stands(r.rest, old(depth)))
      ensures off >= old(off)
    {
      ghost var s := Rest();
      v, err := 0, true;
      SkipWhitespace();
      Head();
      SkippedReads(s);
      hide N.SimpleUint64, N.ReadNumberLike, N.ParseUint64;
      if off < |data| && data[off] != QUOTE {
        var n, ok, bad := ReadSimpleUint64Token();
        if ok {
          return n, bad;
        }
      }
      var text, bad := ReadNumberLike();
      if bad {
        return;
      }
      match N.OrFloat(N.ParseUint64(text), fl.unsigned(text))
      case None =>
      case Some(n) => v, err := n, false;
    }

    method ReadInt32(fl: N.Floats) returns (v: int, err: bool)
      requires Valid()
      modifies this`off
      ensures var r := N.ReadInt32(fl, old(Rest()));
              err == r.Err? && Valid() && (!err ==> v == r.value && Stands(r.rest, old(depth)))
      ensures off >= old(off)
    {
      hide N.ReadInt64;
      v, err := ReadInt64(fl);
      err := err || v < -2147483648 || v > 2147483647;
    }

    method ReadUint32(fl: N.Floats) returns (v: int, err: bool)
      requires Valid()
      modifies this`off
      ensures var r := N.ReadUint32(fl, old(Rest()));
              err == r.Err? && Valid() && (!err ==> v == r.value && Stands(r.rest, old(depth)))
      ensures off >= old(off)
    {
      ghost var r := N.ReadUint64(fl, Rest());
      assert r.Ok? ==> r.value >= 0 by {
        UnsignedReads(fl, Rest());
      }
      hide N.ReadUint64;
      v, err := ReadUint64(fl);
      err := err || v > 4294967295;
    }

    // -------------------------------------------------------------- structure

    /** BeginObject and BeginArray. */
    method Begin(open: byte) returns (err: bool)
      requires Valid() && depth >= 0
      modifies this
      ensures var r := C.Begin(old(Rest()), open, old(depth));
              err == r.None? && Valid() && (!err ==> Stands(r.value, old(depth) + 1) && off > old(off))
    {
      SkipWhitespace();
      Head();
      if off >= |data| || data[off] != open {
        return true;
      }
      depth := depth + 1;
      if depth > 100 {
        return true;
      }
      off := off + 1;
      return false;
    }

    /** The separator in front of a key or an element. */
    method PassSeparator(first: bool) returns (err: bool)
      requires Valid() && off < |data|
      modifies this`off
      ensures var r := C.Separator(old(Rest()), first);
              err == r.None? && Valid() && (!err ==> Stands(r.value, old(depth)))
      ensures off >= old(off)
    {
      Head();
      if !first {
        if data[off] != COMMA {
          return true;
        }
        off := off + 1;
        SkipWhitespace();
      }
      return false;
    }

    method PassColon() returns (err: bool)
      requires Valid()
      modifies this`off
      ensures var t := SkipWs(old(Rest()));
              err == !At(t, COLON) && Valid() && (!err ==> Stands(t[1..], old(depth)) && off > old(off))
      ensures off >= old(off)
    {
      SkipWhitespace();
      Head();
      if off >= |data| || data[off] != COLON {
        return true;
      }
      off := off + 1;
      return false;
    }

    /** NextObjectKey; the flag `first` is cleared once a key has been read. */
    method NextObjectKey(first: bool) returns (key: bytes, first': bool, ok: bool, err: bool)
      requires Valid()
      modifies this
      ensures Valid() && off >= old(off)
      ensures match C.NextKey(old(Rest()), first)
              case NoKey => err
              case EndObject(rest) => !err && !ok && Stands(rest, old(depth) - 1)
              case Key(name, rest) => !err && ok && key == name && !first' && Stands(rest, old(depth)) && off > old(off)
    {
      hide T.ReadKeyFast, C.Separator;
      key, first', ok, err := [], first, false, true;
      SkipWhitespace();
      Head();
      if off >= |data| {
        depth := depth - 1;
        return;
      }
      if data[off] == RBRACE {
        off := off + 1;
        depth := depth - 1;
        err := false;
        return;
      }
      var bad := PassSeparator(first);
      if bad {
        depth := depth - 1;
        return;
      }
      first' := false;
      key, bad := ReadObjectKeyFast();
      if bad {
        depth := depth - 1;
        return;
      }
      bad := PassColon();
      if bad {
        depth := depth - 1;
        return;
      }
      ok, err := true, false;
    }

    method NextArrayElement(first: bool) returns (first': bool, ok: bool, err: bool)
      requires Valid()
      modifies this
      ensures Valid() && off >= old(off)
      ensures match C.NextElem(old(Rest()), first)
              case NoElem => err
              case EndArray(rest) => !err && !ok && Stands(rest, old(depth) - 1)
              case Element(rest) => !err && ok && !first' && Stands(rest, old(depth)) && (!first ==> off > old(off))
    {
      hide C.Separator;
      first', ok, err := first, false, true;
      SkipWhitespace();
      Head();
      if off >= |data| {
        depth := depth - 1;
        return;
      }
      if data[off] == RBRACKET {
        off := off + 1;
        depth := depth - 1;
        err := false;
        return;
      }
      var bad := PassSeparator(first);
      if bad {
        depth := depth - 1;
        return;
      }
      first', ok, err := false, true, false;
    }

    /** TryObjectFieldFast: when the next key is another one, the cursor is left in front of it. */
    method TryObjectFieldFast(first: bool, name: bytes) returns (first': bool, matched: bool, done: bool, err: bool)
      requires Valid()
      modifies this
      ensures Valid() && off >= old(off)
      ensures match G.MatchFast(old(Rest()), first, name)
              case MatchErr => err
              case MatchEnd(rest) => !err && done && Stands(rest, old(depth) - 1)
              case NoMatch(rest) => !err && !done && !matched && first' == first && Stands(rest, old(depth))
              case Matched(rest) => !err && !done && matched && !first' && Stands(rest, old(depth)) && off > old(off)
    {
      hide C.Separator, G.RawName;
      first', matched, done, err := first, false, false, true;
      SkipWhitespace();
      Head();
      if off >= |data| {
        return;
      }
      if data[off] == RBRACE {
        off := off + 1;
        depth := depth - 1;
        return first, false, true, false;
      }
      var savedOff := off;
      var bad := PassSeparator(first);
      if bad {
        return;
      }
      var same := PassName(name);
      if !same {
        off := savedOff;
        return first, false, false, false;
      }
      bad := PassColon();
      if bad {
        off := savedOff;
        return;
      }
      return false, true, false, false;
    }

    /** Whether the quoted name comes next, and behind it if so. */
    method PassName(name: bytes) returns (same: bool)
      requires Valid()
      modifies this`off
      ensures var u := old(Rest());
              && same == (At(u, QUOTE) && G.RawName(u[1..], name)) && Valid() && off >= old(off)
              && (same ==> Stands(u[1..][|name| + 1..], old(depth)) && off > old(off))
    {
      Head();
      if off >= |data| || data[off] != QUOTE {
        return false;
      }
      ghost var v := data[off + 1..];
      assert |name| <= |v| ==> v[..|name|] == data[off + 1..off + 1 + |name|];
      if |data| - (off + 1) < |name| + 1 || data[off + 1..off + 1 + |name|] != name || data[off + 1 + |name|] != QUOTE {
        return false;
      }
      Drop(data, off + 1, |name| + 1);
      off := off + 1 + |name| + 1;
      return true;
    }

    /** TryEndObject. */
    method TryEndObject() returns (done: bool, err: bool)
      requires Valid()
      modifies this
      ensures var t := SkipWs(old(Rest()));
              && Valid() && off >= old(off) && err == (t == []) && done == At(t, RBRACE)
              && (done ==> Stands(t[1..], old(depth) - 1))
    {
      SkipWhitespace();
      Head();
      if off >= |data| {
        return false, true;
      }
      if data[off] != RBRACE {
        return false, false;
      }
      off := off + 1;
      depth := depth - 1;
      return true, false;
    }

    /** PeekObjectFieldName: the first key, empty when there is none. */
    method PeekObjectFieldName() returns (name: bytes, savedOff: nat, savedDepth: int, err: bool)
      requires Valid() && depth >= 0
      modifies this
      ensures Valid() && savedOff == old(off) && savedDepth == old(depth)
      ensures var r := G.Peek(old(Rest()), old(depth)); err == r.None? && (!err ==> name == r.value)
    {
      hide T.ReadKeyFast;
      name, err := [], true;
      savedOff, savedDepth := Mark();
      var bad := Begin(LBRACE);
      if bad {
        return;
      }
      SkipWhitespace();
      Head();
      if off >= |data| {
        return;
      }
      if data[off] == RBRACE {
        Reset(savedOff, savedDepth);
        return [], savedOff, savedDepth, false;
      }
      name, bad := ReadObjectKeyFast();
      if bad {
        return;
      }
      err := PassColon();
    }

    // -------------------------------------------------------------- skipping

    /** SkipValue. */
    method SkipValue() returns (err: bool)
      requires Valid() && depth >= 0
      modifies this
      ensures var r := C.SkipValue(old(Rest()), old(depth));
              err == r.None? && Valid() && (!err ==> Stands(r.value, old(depth)) && off > old(off))
      decreases |data| - off, 0
    {
      hide T.ReadString, C.SkipMembers, C.SkipElems, C.IsScalar;
      ghost var s := Rest();
      SkipWhitespace();
      Head();
      SkippedReads(s);
      if off >= |data| {
        return true;
      }
      if data[off] == LBRACE {
        err := SkipObject();
      } else if data[off] == LBRACKET {
        err := SkipArray();
      } else if data[off] == QUOTE {
        var _, bad := ReadStringBytes();
        err := bad;
      } else {
        err := SkipToken();
      }
    }

    /** The run of bytes up to the next terminator. */
    method TakeToken() returns (c: bytes)
      requires Valid()
      modifies this`off
      ensures c == C.TakeToken(old(Rest())) && Valid() && off >= old(off)
      ensures |c| <= |old(Rest())| && Stands(old(Rest())[|c|..], old(depth))
    {
      hide C.TakeToken;
      var start := off;
      while off < |data| && !IsTerminator(data[off])
        invariant start <= off <= |data| && forall i :: start <= i < off ==> !IsTerminator(data[i])
      {
        off := off + 1;
      }
      c := data[start..off];
      TakeSplit(data[start..], off - start);
      Drop(data, start, off - start);
    }

    /** The default branch of SkipValue, with json.Valid on what was passed over. */
    method SkipToken() returns (err: bool)
      requires Valid()
      modifies this`off
      ensures var r := C.SkipScalar(old(Rest()));
              err == r.None? && Valid() && off >= old(off) && (!err ==> Stands(r.value, old(depth)))
    {
      hide C.IsScalar, C.TakeToken;
      var c := TakeToken();
      if c == [] {
        return true;
      }
      err := !C.IsScalar(c);
    }

    /** ParseObject with SkipValue for every member. */
    method SkipObject() returns (err: bool)
      requires Valid() && depth >= 0 && off < |data|
      modifies this
      ensures var b := C.Begin(old(Rest()), LBRACE, old(depth));
              var r := if b.Some? then C.SkipMembers(b.value, true, old(depth) + 1) else None;
              err == r.None? && Valid() && (!err ==> Stands(r.value, old(depth)) && off > old(off))
      decreases |data| - off, 0, 0
    {
      hide C.NextKey, C.SkipValue;
      err := Begin(LBRACE);
      if err {
        return;
      }
      var first := true;
      ghost var all := C.SkipMembers(Rest(), true, depth);
      while true
        invariant Valid() && off > old(off) && depth == old(depth) + 1
        invariant all == C.SkipMembers(Rest(), first, depth)
        decreases |data| - off
      {
        var key, ok;
        key, first, ok, err := NextObjectKey(first);
        if err || !ok {
          return;
        }
        err := SkipValue();
        if err {
          return;
        }
      }
    }

    /** ParseArray with SkipValue for every element. */
    method SkipArray() returns (err: bool)
      requires Valid() && depth >= 0 && off < |data|
      modifies this
      ensures var b := C.Begin(old(Rest()), LBRACKET, old(depth));
              var r := if b.Some? then C.SkipElems(b.value, true, old(depth) + 1) else None;
              err == r.None? && Valid() && (!err ==> Stands(r.value, old(depth)) && off > old(off))
      decreases |data| - off, 0, 0
    {
      hide C.NextElem, C.SkipValue;
      err := Begin(LBRACKET);
      if err {
        return;
      }
      var first := true;
      ghost var all := C.SkipElems(Rest(), true, depth);
      while true
        invariant Valid() && off > old(off) && depth == old(depth) + 1
        invariant all == C.SkipElems(Rest(), first, depth)
        decreases |data| - off
      {
        var ok;
        first, ok, err := NextArrayElement(first);
        if err || !ok {
          return;
        }
        err := SkipValue();
        if err {
          return;
        }
      }
    }
  }

  /** Readers that skip white space first do not mind its being skipped already. */
  lemma SkippedReads(s: bytes)
    ensures N.ReadNumberToken(SkipWs(s)) == N.ReadNumberToken(s) && T.ReadString(SkipWs(s)) == T.ReadString(s)
    ensures N.ReadNumberLike(SkipWs(s)) == N.ReadNumberLike(s)
    ensures forall open, n :: C.Begin(SkipWs(s), open, n) == C.Begin(s, open, n)
  {
    SkipWsStop(SkipWs(s));
    hide N.NumberEnd, T.ScanString;
  }

  lemma {:induction false} TakeSplit(s: bytes, n: nat)
    requires n <= |s| && (forall i :: 0 <= i < n ==> !IsTerminator(s[i])) && Ended(s[n..])
    ensures C.TakeToken(s) == s[..n]
  {
    if n > 0 {
      assert s[1..][n - 1..] == s[n..];
      TakeSplit(s[1..], n - 1);
      assert s[..n] == [s[0]] + s[1..][..n - 1];
    }
  }

  lemma UnsignedReads(fl: N.Floats, s: bytes)
    ensures N.ReadUint64(fl, s).Ok? ==> N.ReadUint64(fl, s).value >= 0
  {
  }

  ghost function KeyShift(head: bytes, s: T.KeyScan): T.KeyScan {
    match s case PlainKey(key, rest) => T.PlainKey(head + key, rest) case other => other
  }

  lemma KeyShiftNothing(s: T.KeyScan)
    ensures KeyShift([], s) == s
  {
    if s.PlainKey? {
      assert [] + s.key == s.key;
    }
  }

  lemma KeyShiftOne(head: bytes, c: byte, s: T.KeyScan)
    ensures KeyShift(head, KeyShift([c], s)) == KeyShift(head + [c], s)
  {
    if s.PlainKey? {
      assert head + ([c] + s.key) == head + [c] + s.key;
    }
  }

  /** The scan one byte or one escape further. */
  lemma ScanStep(t: bytes)
    ensures t == [] ==> T.ScanString(t).Unterminated?
    ensures t != [] && t[0] == QUOTE ==> T.ScanString(t) == T.Scanned([], false, t[1..])
    ensures t != [] && t[0] == BACKSLASH ==>
              T.ScanString(t) == if |t| < 2 then T.Unterminated else Shift(t[..2], true, T.ScanString(t[2..]))
    ensures t != [] && t[0] != QUOTE && t[0] != BACKSLASH ==>
              T.ScanString(t) == if t[0] < 0x20 then T.Unterminated else Shift([t[0]], false, T.ScanString(t[1..]))
  {
  }

  lemma ShiftFails(head: bytes, escaped: bool)
    ensures Shift(head, escaped, T.Unterminated) == T.Unterminated
  {
  }

  lemma ShiftEnd(head: bytes, escaped: bool, rest: bytes)
    ensures Shift(head, escaped, T.Scanned([], false, rest)) == T.Scanned(head, escaped, rest)
  {
    assert head + [] == head;
  }

  lemma ShiftNothing(s: T.Scan)
    ensures Shift([], false, s) == s
  {
    if s.Scanned? {
      assert [] + s.raw == s.raw;
    }
  }

  /** The scan of a text whose head has been passed already. */
  ghost function Shift(head: bytes, escaped: bool, s: T.Scan): T.Scan {
    match s
    case Unterminated => T.Unterminated
    case Scanned(raw, e, rest) => T.Scanned(head + raw, escaped || e, rest)
  }

  lemma ShiftOne(head: bytes, c: byte, escaped: bool, s: T.Scan)
    ensures Shift(head, escaped, Shift([c], false, s)) == Shift(head + [c], escaped, s)
  {
    if s.Scanned? {
      assert head + ([c] + s.raw) == head + [c] + s.raw;
    }
  }

  lemma ShiftTwice(head: bytes, pair: bytes, s: T.Scan)
    ensures Shift(head, false, Shift(pair, true, s)) == Shift(head + pair, true, s)
    ensures Shift(head, true, Shift(pair, true, s)) == Shift(head + pair, true, s)
  {
    if s.Scanned? {
      assert head + (pair + s.raw) == head + pair + s.raw;
    }
  }

  /** parseHexRune: four digits, shifted in one by one. */
  method ParseHexRune(s: bytes) returns (v: int, ok: bool)
    requires |s| == 4
    ensures T.HexRune(s) == if ok then Some(v) else None
  {
    hide T.HexRune;
    v, ok := 0, false;
    for i := 0 to 4
      invariant forall j :: 0 <= j < i ==> T.HexValue(s[j]).Some?
      invariant v == HexPrefix(s, i)
    {
      var c := s[i];
      if ZERO <= c <= NINE {
        v := v * 16 + (c - ZERO);
      } else if 97 <= c <= 102 {
        v := v * 16 + (c - 97 + 10);
      } else if 65 <= c <= 70 {
        v := v * 16 + (c - 65 + 10);
      } else {
        HexFails(s, i);
        return;
      }
    }
    HexPrefixIs(s);
    ok := true;
  }

  function HexPrefix(s: bytes, n: nat): int
    requires n <= |s| && forall j :: 0 <= j < n ==> T.HexValue(s[j]).Some?
  {
    if n == 0 then 0 else HexPrefix(s, n - 1) * 16 + T.HexValue(s[n - 1]).value
  }

  lemma HexPrefixIs(s: bytes)
    requires |s| == 4 && forall j :: 0 <= j < 4 ==> T.HexValue(s[j]).Some?
    ensures T.HexRune(s) == Some(HexPrefix(s, 4))
  {
    hide T.HexValue;
    assert HexPrefix(s, 1) == T.HexValue(s[0]).value;
    assert HexPrefix(s, 2) == HexPrefix(s, 1) * 16 + T.HexValue(s[1]).value;
    assert HexPrefix(s, 3) == HexPrefix(s, 2) * 16 + T.HexValue(s[2]).value;
  }

  lemma HexFails(s: bytes, i: nat)
    requires |s| == 4 && i < 4 && T.HexValue(s[i]).None?
    ensures T.HexRune(s).None?
  {
    hide T.HexValue;
  }

  /** The outcome of unescaping a text whose first part has given `out`. */
  ghost function Onto(out: bytes, t: Option<bytes>): Option<bytes> {
    match t case None => None case Some(x) => Some(out + x)
  }

  lemma OntoNothing(t: Option<bytes>)
    ensures Onto([], t) == t
  {
    if t.Some? {
      assert [] + t.value == t.value;
    }
  }

  lemma OntoStep(s: bytes, i: nat, out: bytes, step: T.Step)
    requires i < |s| && step == T.UnescapeStep(s[i..])
    ensures step.Bad? ==> Onto(out, T.Unescape(s[i..])).None?
    ensures step.Good? ==> Onto(out, T.Unescape(s[i..])) == Onto(out + step.out, T.Unescape(s[i + step.used..]))
  {
    if step.Good? {
      Drop(s, i, step.used);
      var t := T.Unescape(s[i + step.used..]);
      if t.Some? {
        assert out + (step.out + t.value) == out + step.out + t.value;
      }
    }
  }

  /** One turn of UnescapeString at a backslash, at index `i`. */
  method UnescapeEscape(s: bytes, i: nat) returns (out: bytes, used: nat, err: bool)
    requires i < |s| && s[i] == BACKSLASH
    ensures T.UnescapeStep(s[i..]) == if err then T.Bad else T.Good(out, used)
  {
    out, used, err := [], 2, true;
    ghost var t := s[i..];
    if i + 1 >= |s| {
      return;
    }
    assert t[1] == s[i + 1];
    if s[i + 1] != 117 {
      if s[i + 1] == QUOTE || s[i + 1] == BACKSLASH || s[i + 1] == SLASH {
        return [s[i + 1]], 2, false;
      } else if s[i + 1] == 98 {
        return [8], 2, false;
      } else if s[i + 1] == 102 {
        return [12], 2, false;
      } else if s[i + 1] == 110 {
        return [10], 2, false;
      } else if s[i + 1] == 114 {
        return [13], 2, false;
      } else if s[i + 1] == 116 {
        return [9], 2, false;
      }
      return;
    }
    if i + 5 >= |s| {
      return;
    }
    assert t[2..6] == s[i + 2..i + 6];
    var r, ok := ParseHexRune(s[i + 2..i + 6]);
    if !ok {
      return;
    }
    used := 6;
    if 0xD800 <= r <= 0xDFFF {
      if r > 0xDBFF {
        return;
      }
      if i + 11 >= |s| || s[i + 6] != BACKSLASH || s[i + 7] != 117 {
        return;
      }
      assert t[8..12] == s[i + 8..i + 12];
      var r2, ok2 := ParseHexRune(s[i + 8..i + 12]);
      if !ok2 || r2 < 0xDC00 || r2 > 0xDFFF {
        return;
      }
      used := 12;
      r := T.JoinSurrogates(r, r2);
    }
    out, err := T.Utf8(r), false;
  }

  method UnescapeString(s: bytes) returns (out: bytes, err: bool)
    ensures T.Unescape(s) == if err then None else Some(out)
  {
    out, err := [], true;
    var i := 0;
    OntoNothing(T.Unescape(s));
    assert s[0..] == s;
    while i < |s|
      invariant i <= |s| && T.Unescape(s) == Onto(out, T.Unescape(s[i..]))
    {
      var c := s[i];
      OntoStep(s, i, out, T.UnescapeStep(s[i..]));
      if c != BACKSLASH {
        if c < 0x20 {
          return;
        }
        out := out + [c];
        i := i + 1;
        continue;
      }
      var piece, used, bad := UnescapeEscape(s, i);
      if bad {
        return;
      }
      out := out + piece;
      i := i + used;
    }
    assert s[i..] == [] && out + [] == out;
    err := false;
  }
}
