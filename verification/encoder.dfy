/**
 The Encoder of the generated code as an object that appends to a buffer. Each method is proved to
 append the text its printing function gives.
 */
module Encoders {
  import opened Bytes
  import opened Order
  import E = Encode
  import M = Maps
  import N = Numbers
  import T = Text
  import Du = Durations
  import Ti = Times

  lemma {:induction false} EscapeAppend(s: bytes, t: bytes)
    ensures T.Escape(s + t) == T.Escape(s) + T.Escape(t)
  {
    if s == [] {
      assert s + t == t;
    } else {
      assert (s + t)[1..] == s[1..] + t;
      EscapeAppend(s[1..], t);
      assert T.EscapeByte(s[0]) + (T.Escape(s[1..]) + T.Escape(t)) == T.EscapeByte(s[0]) + T.Escape(s[1..]) + T.Escape(t);
    }
  }

  lemma EscapeNone()
    ensures T.Escape([]) == []
  {
  }

  lemma EscapeOne(c: byte)
    ensures T.Escape([c]) == T.EscapeByte(c)
  {
    assert [c][1..] == [];
    assert T.EscapeByte(c) + [] == T.EscapeByte(c);
  }

  class Encoder {
    var buf: bytes

    constructor ()
      ensures buf == []
    {
      buf := [];
    }

    method Byte(c: byte)
      modifies this
      ensures buf == old(buf) + [c]
    {
      buf := buf + [c];
    }

    method Raw(s: bytes)
      modifies this
      ensures buf == old(buf) + s
    {
      buf := buf + s;
    }

    method FieldPrefix(wrote: bool, name: bytes) returns (wrote': bool)
      modifies this
      ensures wrote' && buf == old(buf) + E.PrefixTo(wrote, name, [])
    {
      if wrote {
        buf := buf + [COMMA];
      }
      buf := buf + [QUOTE];
      buf := buf + name;
      buf := buf + [QUOTE, COLON];
      wrote' := true;
      assert buf == old(buf) + ((if wrote then [COMMA] else []) + ([QUOTE] + (name + ([QUOTE, COLON] + []))));
    }

    /** The escape of one byte. */
    method WriteEscape(c: byte)
      requires c < 0x20 || c == BACKSLASH || c == QUOTE
      modifies this
      ensures buf == old(buf) + T.EscapeByte(c)
    {
      if c == BACKSLASH || c == QUOTE {
        buf := buf + [BACKSLASH, c];
      } else if c == 10 {
        buf := buf + [BACKSLASH, 110];
      } else if c == 13 {
        buf := buf + [BACKSLASH, 114];
      } else if c == 9 {
        buf := buf + [BACKSLASH, 116];
      } else {
        HexTable(c / 16);
        HexTable(c % 16);
        buf := buf + [BACKSLASH, 117, ZERO, ZERO, HEX[c / 16], HEX[c % 16]];
      }
    }

    /** String: runs of bytes that need no escape are copied at once. */
    method String(s: bytes)
      modifies this
      ensures buf == old(buf) + T.Quote(s)
    {
      hide T.EscapeByte, T.Escape;
      EscapeNone();
      buf := buf + [QUOTE];
      ghost var head := buf;
      assert s[..0] == [];
      var start := 0;
      for i := 0 to |s|
        invariant start <= i
        invariant buf == head + T.Escape(s[..start]) && T.Escape(s[..i]) == T.Escape(s[..start]) + s[start..i]
      {
        var c := s[i];
        assert s[..i + 1] == s[..i] + [c];
        EscapeAppend(s[..i], [c]);
        EscapeOne(c);
        if c < 0x20 || c == BACKSLASH || c == QUOTE {
          if start < i {
            buf := buf + s[start..i];
          }
          assert buf == head + T.Escape(s[..i]);
          WriteEscape(c);
          start := i + 1;
        } else {
          PlainByte(c);
          assert s[start..i + 1] == s[start..i] + [c];
        }
      }
      if start < |s| {
        buf := buf + s[start..];
      }
      assert s[..|s|] == s && s[start..|s|] == s[start..];
      buf := buf + [QUOTE];
      assert buf == old(buf) + ([QUOTE] + T.Escape(s) + [QUOTE]);
    }

    /** Int32 and Int64 without quotes. */
    method Int(v: int)
      modifies this
      ensures buf == old(buf) + N.Decimal(v)
    {
      buf := buf + N.Decimal(v);
    }

    /** Int64String and Uint64String. */
    method IntString(v: int)
      modifies this
      ensures buf == old(buf) + N.QuotedDecimal(v)
    {
      buf := buf + [QUOTE];
      buf := buf + N.Decimal(v);
      buf := buf + [QUOTE];
    }

    method Bool(v: bool)
      modifies this
      ensures buf == old(buf) + E.BoolText(v)
    {
      if v {
        buf := buf + TRUE;
      } else {
        buf := buf + FALSE;
      }
    }

    method Pair(first: bool, key: bytes, value: bytes)
      modifies this
      ensures forall more :: buf + more ==
                old(buf) + ((if first then [] else [COMMA]) + (T.Quote(key) + ([COLON] + (T.Quote(value) + more))))
    {
      hide T.Quote;
      if !first {
        buf := buf + [COMMA];
      }
      String(key);
      buf := buf + [COLON];
      String(value);
      forall more ensures buf + more ==
                old(buf) + ((if first then [] else [COMMA]) + (T.Quote(key) + ([COLON] + (T.Quote(value) + more))))
      {
        PairText(old(buf), if first then [] else [COMMA], T.Quote(key), T.Quote(value), more);
      }
    }

    /** StringMap: the entries are collected in some order, sorted, and printed. */
    method StringMap(v: map<bytes, bytes>)
      modifies this
      ensures buf == old(buf) + E.MapTo(v, [])
    {
      var keys := SortedKeys(v);
      hide E.MapTo, E.PairsTo;
      buf := buf + [LBRACE];
      Pairs(v, keys);
    }

    method Pairs(v: map<bytes, bytes>, keys: seq<bytes>)
      requires forall key :: key in keys ==> key in v
      modifies this
      ensures buf == old(buf) + E.PairsTo(keys, 0, v, [])
    {
      hide T.Quote;
      for i := 0 to |keys|
        invariant old(buf) + E.PairsTo(keys, 0, v, []) == buf + E.PairsTo(keys, i, v, [])
      {
        ghost var more := E.PairsTo(keys, i + 1, v, []);
        assert E.PairsTo(keys, i, v, []) ==
               (if i > 0 then [COMMA] else []) + (T.Quote(keys[i]) + ([COLON] + (T.Quote(v[keys[i]]) + more)));
        Pair(i == 0, keys[i], v[keys[i]]);
        assert buf + more == old(buf) + E.PairsTo(keys, 0, v, []);
      }
      buf := buf + [RBRACE];
      assert [RBRACE] + [] == [RBRACE];
    }

    method Timestamp(secs: int, nanos: nat) returns (err: bool)
      modifies this
      ensures err == !Ti.ValidTimestamp(secs, nanos)
      ensures !err ==> buf == old(buf) + ([QUOTE] + Ti.TimestampText(secs, nanos) + [QUOTE])
    {
      if !Ti.ValidTimestamp(secs, nanos) {
        return true;
      }
      hide *;
      Byte(QUOTE);
      buf := Ti.AppendTimestamp(buf, secs, nanos);
      Byte(QUOTE);
      Quoted(old(buf), Ti.TimestampText(secs, nanos));
      return false;
    }

    method Duration(secs: int, nanos: int) returns (err: bool)
      modifies this
      ensures err == !Du.ValidDuration(secs, nanos)
      ensures !err ==> buf == old(buf) + ([QUOTE] + Du.DurationText(secs, nanos) + [QUOTE])
    {
      if !Du.ValidDuration(secs, nanos) {
        return true;
      }
      hide *;
      Byte(QUOTE);
      buf := Du.AppendDuration(buf, secs, nanos);
      Byte(QUOTE);
      Quoted(old(buf), Du.DurationText(secs, nanos));
      return false;
    }
  }

  /** The keys of a map in whatever order it is enumerated. */
  method CollectKeys<K(!new), V>(m: map<K, V>) returns (keys: seq<K>)
    ensures Distinct(keys) && Elements(keys) == m.Keys
  {
    keys := [];
    var rest := m.Keys;
    while rest != {}
      invariant Distinct(keys) && Elements(keys) + rest == m.Keys && Elements(keys) !! rest
      decreases |rest|
    {
      var k :| k in rest;
      assert k !in keys by {
        assert k !in Elements(keys);
      }
      rest := rest - {k};
      assert Elements(keys + [k]) == Elements(keys) + {k};
      keys := keys + [k];
    }
  }

  /** The keys of a map as they are printed. */
  method SortedKeys(v: map<bytes, bytes>) returns (keys: seq<bytes>)
    ensures forall key :: key in keys ==> key in v
    ensures [LBRACE] + E.PairsTo(keys, 0, v, []) == E.MapTo(v, [])
  {
    var entries := CollectKeys(v);
    keys := Sort(LexLess, entries);
    M.StringMapCanonical(v, entries, []);
  }

  lemma PairText(before: bytes, comma: bytes, key: bytes, value: bytes, more: bytes)
    ensures before + (comma + (key + ([COLON] + (value + more)))) == before + comma + key + [COLON] + value + more
  {
  }

  lemma PlainByte(c: byte)
    requires !(c < 0x20 || c == BACKSLASH || c == QUOTE)
    ensures T.EscapeByte(c) == [c]
  {
  }

  const HEX: bytes := [48, 49, 50, 51, 52, 53, 54, 55, 56, 57, 97, 98, 99, 100, 101, 102]

  lemma HexTable(v: nat)
    requires v < 16
    ensures HEX[v] == T.HexDigit(v)
  {
  }

  lemma Quoted(before: bytes, text: bytes)
    ensures before + [QUOTE] + text + [QUOTE] == before + ([QUOTE] + text + [QUOTE])
  {
  }
}
