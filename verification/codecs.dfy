/**
 The printers and parsers of value trees and of maps as they run, on an Encoder and a Decoder.
 */
module Codecs {
  import opened Bytes
  import opened Decoders
  import opened Encoders
  import opened Maps
  import opened MapTexts
  import opened Messages
  import opened Order
  import opened Schema
  import opened Values
  import C = Cursor
  import E = Encode
  import G = Generated
  import N = Numbers
  import T = Text

  // ---------------------------------------------------------------- parsing value trees

  /** unmarshalValue. */
  method UnmarshalValue(d: Decoder) returns (v: PValue, err: bool)
    requires d.Valid() && d.depth >= 0
    modifies d
    ensures var r := ReadValue(old(d.Rest()), old(d.depth));
            err == r.Err? && d.Valid() && (!err ==> v == r.value && d.Stands(r.rest, old(d.depth)) && d.off > old(d.off))
    decreases |d.data| - d.off, 1
  {
    hide T.ReadString, C.ReadNull, C.ReadBool, N.ReadNumberToken, ReadFields, ReadElems, C.Begin;
    v, err := Unset, true;
    d.SkipWhitespace();
    d.Head();
    if d.off >= |d.data| {
      return;
    }
    var c := d.data[d.off];
    if c == NULL[0] {
      var found := d.ReadNull();
      v, err := NullV, !found;
    } else if c == TRUE[0] || c == FALSE[0] {
      var b, bad := d.ReadBool();
      v, err := BoolV(b), bad;
    } else if c == QUOTE {
      var s, bad := d.ReadStringBytes();
      v, err := StringV(s), bad;
    } else if c == LBRACE {
      v, err := UnmarshalStruct(d);
    } else if c == LBRACKET {
      v, err := UnmarshalListValue(d);
    } else {
      var t, bad := d.ReadJSONNumberToken();
      v, err := NumberV(t), bad;
    }
  }

  method UnmarshalStruct(d: Decoder) returns (v: PValue, err: bool)
    requires d.Valid() && d.depth >= 0
    modifies d
    ensures var b := C.Begin(old(d.Rest()), LBRACE, old(d.depth));
            var r := if b.Some? then ReadFields(b.value, true, old(d.depth) + 1, map[]) else Err;
            err == r.Err? && d.Valid() && (!err ==> v == r.value && d.Stands(r.rest, old(d.depth)) && d.off > old(d.off))
    decreases |d.data| - d.off, 0
  {
    hide C.NextKey, ReadValue, C.Begin;
    v := Unset;
    err := d.Begin(LBRACE);
    if err {
      return;
    }
    var first := true;
    var m: map<bytes, PValue> := map[];
    ghost var depth: nat := d.depth;
    ghost var all := ReadFields(d.Rest(), true, depth, map[]);
    while true
      invariant d.Valid() && d.depth == depth && d.off > old(d.off)
      invariant all == ReadFields(d.Rest(), first, depth, m)
      decreases |d.data| - d.off
    {
      var key, ok, val;
      key, first, ok, err := d.NextObjectKey(first);
      if err || !ok {
        return StructV(m), err;
      }
      val, err := UnmarshalValue(d);
      if err {
        return;
      }
      m := m[key := val];
    }
  }

  method UnmarshalListValue(d: Decoder) returns (v: PValue, err: bool)
    requires d.Valid() && d.depth >= 0
    modifies d
    ensures var b := C.Begin(old(d.Rest()), LBRACKET, old(d.depth));
            var r := if b.Some? then ReadElems(b.value, true, old(d.depth) + 1, []) else Err;
            err == r.Err? && d.Valid() && (!err ==> v == r.value && d.Stands(r.rest, old(d.depth)) && d.off > old(d.off))
    decreases |d.data| - d.off, 0
  {
    hide C.NextElem, ReadValue, C.Begin;
    v := Unset;
    err := d.Begin(LBRACKET);
    if err {
      return;
    }
    var first := true;
    var list: seq<PValue> := [];
    ghost var depth: nat := d.depth;
    ghost var all := ReadElems(d.Rest(), true, depth, []);
    while true
      invariant d.Valid() && d.depth == depth && d.off > old(d.off)
      invariant all == ReadElems(d.Rest(), first, depth, list)
      decreases |d.data| - d.off, if first then 1 else 0
    {
      var ok, val;
      first, ok, err := d.NextArrayElement(first);
      if err || !ok {
        return ListV(list), err;
      }
      val, err := UnmarshalValue(d);
      if err {
        return;
      }
      list := list + [val];
    }
  }

  // ---------------------------------------------------------------- printing value trees

  /** A text with `k` behind it. */
  ghost function Then(t: Option<bytes>, k: bytes): Option<bytes> {
    match t case None => None case Some(s) => Some(s + k)
  }

  lemma {:induction false} WriteAppend(v: PValue, k: bytes)
    ensures WriteTo(v, k) == Then(WriteTo(v, []), k)
    decreases v, 1
  {
    match v
    case StructV(m) =>
      FieldsAppend(v, StringKeys(m.Keys), 0, k);
      OpenedAppend(LBRACE, WriteFields(v, StringKeys(m.Keys), 0, []), k);
    case ListV(vs) =>
      ElemsAppend(v, 0, k);
      OpenedAppend(LBRACKET, WriteElems(v, 0, []), k);
    case _ => ScalarAppend(v, k);
  }

  lemma ScalarAppend(v: PValue, k: bytes)
    requires !v.StructV? && !v.ListV?
    ensures WriteTo(v, k) == Then(WriteTo(v, []), k)
  {
    hide T.Quote;
    match v
    case NullV => NothingMore(NULL);
    case NumberV(t) => NothingMore(t);
    case StringV(s) => NothingMore(T.Quote(s));
    case BoolV(b) => NothingMore(E.BoolText(b));
    case _ =>
  }

  lemma OpenedAppend(open: byte, t: Option<bytes>, k: bytes)
    ensures Values.Opened(open, Then(t, k)) == Then(Values.Opened(open, t), k)
  {
    if t.Some? {
      assert [open] + (t.value + k) == [open] + t.value + k;
    }
  }

  lemma {:induction false} FieldsAppend(v: PValue, keys: seq<bytes>, i: nat, k: bytes)
    requires v.StructV? && i <= |keys|
    ensures WriteFields(v, keys, i, k) == Then(WriteFields(v, keys, i, []), k)
    decreases v, 0, |keys| - i
  {
    hide T.Quote, WriteTo;
    if i == |keys| {
      assert [RBRACE] + [] == [RBRACE];
    } else if keys[i] in v.fields {
      FieldsAppend(v, keys, i + 1, k);
      var rest := WriteFields(v, keys, i + 1, []);
      if rest.Some? {
        WriteAppend(v.fields[keys[i]], rest.value + k);
        WriteAppend(v.fields[keys[i]], rest.value);
        var s := WriteTo(v.fields[keys[i]], []);
        if s.Some? {
          var comma := if i > 0 then [COMMA] else [];
          EntryRegroup(comma, T.Quote(keys[i]), s.value, rest.value, k);
        }
      }
    }
  }

  lemma EntryRegroup(comma: bytes, key: bytes, s: bytes, rest: bytes, k: bytes)
    ensures comma + (key + ([COLON] + (s + (rest + k)))) == comma + (key + ([COLON] + (s + rest))) + k
    ensures comma + (key + ([COLON] + (s + rest))) == comma + key + [COLON] + s + rest
  {
  }

  lemma {:induction false} ElemsAppend(v: PValue, i: nat, k: bytes)
    requires v.ListV? && i <= |v.vs|
    ensures WriteElems(v, i, k) == Then(WriteElems(v, i, []), k)
    decreases v, 0, |v.vs| - i
  {
    hide WriteTo;
    if i == |v.vs| {
      assert [RBRACKET] + [] == [RBRACKET];
    } else {
      ElemsAppend(v, i + 1, k);
      var rest := WriteElems(v, i + 1, []);
      if rest.Some? {
        WriteAppend(v.vs[i], rest.value + k);
        WriteAppend(v.vs[i], rest.value);
        var s := WriteTo(v.vs[i], []);
        if s.Some? {
          var comma := if i > 0 then [COMMA] else [];
          assert comma + (s.value + (rest.value + k)) == comma + (s.value + rest.value) + k;
        }
      }
    }
  }

  /** writeValue. */
  method WriteValue(v: PValue, e: Encoder) returns (err: bool)
    modifies e
    ensures err == WriteTo(v, []).None? && (!err ==> e.buf == old(e.buf) + WriteTo(v, []).value)
    decreases v, 1
  {
    hide T.Quote, WriteFields, WriteElems;
    err := false;
    match v
    case Unset => return true;
    case NotFinite => return true;
    case NullV =>
      e.Raw(NULL);
      NothingMore(NULL);
    case NumberV(t) =>
      e.Raw(t);
      NothingMore(t);
    case StringV(s) =>
      e.String(s);
      NothingMore(T.Quote(s));
    case BoolV(b) =>
      e.Bool(b);
      NothingMore(E.BoolText(b));
    case StructV(_) => err := WriteStruct(v, e);
    case ListV(_) => err := WriteListValue(v, e);
  }

  /** The keys of a struct in sorted order. */
  method StructKeys(m: map<bytes, PValue>) returns (keys: seq<bytes>)
    ensures keys == StringKeys(m.Keys) && forall i :: 0 <= i < |keys| ==> keys[i] in m
  {
    var found := CollectKeys(m);
    keys := Sort(LexLess, found);
    LexIsOrder();
    SortAscends(LexLess, found);
    AscendingUnique(LexLess, keys, StringKeys(m.Keys));
    assert forall i :: 0 <= i < |keys| ==> keys[i] in Elements(keys);
  }

  /** What has been written so far, with the rest of a text behind it, makes up `all`. */
  ghost predicate Completes(start: bytes, buf: bytes, rest: Option<bytes>, all: Option<bytes>) {
    all.Some? == rest.Some? && (all.Some? ==> start + all.value == buf + rest.value)
  }

  method WriteStruct(v: PValue, e: Encoder) returns (err: bool)
    requires v.StructV?
    modifies e
    ensures err == WriteTo(v, []).None? && (!err ==> e.buf == old(e.buf) + WriteTo(v, []).value)
    decreases v, 0
  {
    hide *;
    var keys := StructKeys(v.fields);
    e.Byte(LBRACE);
    ghost var start := e.buf;
    ghost var all := WriteFields(v, keys, 0, []);
    CompletesAll(start, all);
    for i := 0 to |keys|
      invariant Completes(start, e.buf, WriteFields(v, keys, i, []), all)
    {
      ghost var before := e.buf;
      if i > 0 {
        e.Byte(COMMA);
      }
      e.String(keys[i]);
      e.Byte(COLON);
      err := WriteValue(v.fields[keys[i]], e);
      if err {
        FieldFails(v, keys, i);
        CompletesFails(start, before, all);
        StructText(v);
        return;
      }
      FieldStep(v, keys, i, start, before, e.buf, all);
    }
    FieldsEnd(v, keys, start, e.buf, all);
    e.Byte(RBRACE);
    StructText(v);
    assert old(e.buf) + ([LBRACE] + all.value) == start + all.value;
    err := false;
  }

  lemma CompletesAll(start: bytes, all: Option<bytes>)
    ensures Completes(start, start, all, all)
  {
  }

  lemma CompletesFails(start: bytes, buf: bytes, all: Option<bytes>)
    ensures Completes(start, buf, None, all) ==> all.None?
  {
  }

  lemma FieldsEnd(v: PValue, keys: seq<bytes>, start: bytes, buf: bytes, all: Option<bytes>)
    requires v.StructV? && Completes(start, buf, WriteFields(v, keys, |keys|, []), all)
    ensures all.Some? && start + all.value == buf + [RBRACE]
  {
    assert [RBRACE] + [] == [RBRACE];
  }

  lemma FieldStep(v: PValue, keys: seq<bytes>, i: nat, start: bytes, before: bytes, after: bytes, all: Option<bytes>)
    requires v.StructV? && i < |keys| && keys[i] in v.fields && WriteTo(v.fields[keys[i]], []).Some?
    requires Completes(start, before, WriteFields(v, keys, i, []), all)
    requires after == before + (if i > 0 then [COMMA] else []) + T.Quote(keys[i]) + [COLON] + WriteTo(v.fields[keys[i]], []).value
    ensures Completes(start, after, WriteFields(v, keys, i + 1, []), all)
  {
    hide T.Quote, WriteTo;
    var rest := WriteFields(v, keys, i + 1, []);
    if rest.Some? {
      WriteAppend(v.fields[keys[i]], rest.value);
      Grows(before, if i > 0 then [COMMA] else [], T.Quote(keys[i]), WriteTo(v.fields[keys[i]], []).value, rest.value);
    }
  }

  lemma Grows(before: bytes, comma: bytes, key: bytes, s: bytes, rest: bytes)
    ensures before + (comma + (key + ([COLON] + (s + rest)))) == before + comma + key + [COLON] + s + rest
    ensures before + (comma + (s + rest)) == before + comma + s + rest
  {
  }

  lemma StructText(v: PValue)
    requires v.StructV?
    ensures var all := WriteFields(v, StringKeys(v.fields.Keys), 0, []);
            WriteTo(v, []) == if all.None? then None else Some([LBRACE] + all.value)
  {
  }

  lemma ListText(v: PValue)
    requires v.ListV?
    ensures WriteTo(v, []) == Values.Opened(LBRACKET, WriteElems(v, 0, []))
  {
  }

  lemma FieldFails(v: PValue, keys: seq<bytes>, i: nat)
    requires v.StructV? && i < |keys| && keys[i] in v.fields && WriteTo(v.fields[keys[i]], []).None?
    ensures WriteFields(v, keys, i, []).None?
  {
    var rest := WriteFields(v, keys, i + 1, []);
    if rest.Some? {
      WriteAppend(v.fields[keys[i]], rest.value);
    }
  }

  lemma ElemFails(v: PValue, i: nat)
    requires v.ListV? && i < |v.vs| && WriteTo(v.vs[i], []).None?
    ensures WriteElems(v, i, []).None?
  {
    var rest := WriteElems(v, i + 1, []);
    if rest.Some? {
      WriteAppend(v.vs[i], rest.value);
    }
  }

  method WriteListValue(v: PValue, e: Encoder) returns (err: bool)
    requires v.ListV?
    modifies e
    ensures err == WriteTo(v, []).None? && (!err ==> e.buf == old(e.buf) + WriteTo(v, []).value)
    decreases v, 0
  {
    hide WriteTo;
    ListText(v);
    e.Byte(LBRACKET);
    ghost var start := e.buf;
    ghost var all := WriteElems(v, 0, []);
    for i := 0 to |v.vs|
      invariant Completes(start, e.buf, WriteElems(v, i, []), all)
    {
      ghost var rest := WriteElems(v, i + 1, []);
      ghost var before := e.buf;
      if i > 0 {
        e.Byte(COMMA);
      }
      err := WriteValue(v.vs[i], e);
      if rest.Some? {
        WriteAppend(v.vs[i], rest.value);
      }
      if err {
        ElemFails(v, i);
        return;
      }
      if rest.Some? {
        Grows(before, if i > 0 then [COMMA] else [], [], WriteTo(v.vs[i], []).value, rest.value);
      }
    }
    e.Byte(RBRACKET);
    assert [RBRACKET] + [] == [RBRACKET];
    assert old(e.buf) + ([LBRACKET] + all.value) == old(e.buf) + [LBRACKET] + all.value;
    err := false;
  }

  // ---------------------------------------------------------------- maps

  /** ReadMap. */
  method ReadMap(env: G.Env, keys: KeyKind, kind: Kind, d: Decoder) returns (m: map<MapKey, Value>, err: bool)
    requires d.Valid() && d.depth >= 0
    modifies d
    ensures var r := Maps.ReadMap(env, ByCode, keys, kind, old(d.Rest()), old(d.depth));
            err == r.Err? && d.Valid() && (!err ==> m == r.value && d.Stands(r.rest, old(d.depth)))
  {
    hide C.NextKey, ReadMapValue, C.Begin, ParseKey, ReadEntries;
    m := map[];
    MapBegins(env, ByCode, keys, kind, d.Rest(), d.depth);
    err := d.Begin(LBRACE);
    if err {
      return;
    }
    var first := true;
    ghost var depth: nat := d.depth;
    ghost var all := ReadEntries(env, ByCode, keys, kind, d.Rest(), true, depth, map[]);
    while true
      invariant d.Valid() && d.depth == depth && all == ReadEntries(env, ByCode, keys, kind, d.Rest(), first, depth, m)
      decreases |d.data| - d.off
    {
      var text, ok;
      ghost var s, was := d.Rest(), first;
      text, first, ok, err := d.NextObjectKey(first);
      EntryStops(env, ByCode, keys, kind, s, was, depth, m);
      if err || !ok {
        return;
      }
      EntryTurn(env, ByCode, keys, kind, s, was, text, d.Rest(), depth, m);
      m, err := ReadMapEntry(env, keys, kind, text, m, d);
      if err {
        return;
      }
    }
  }

  /** One entry of a map, whose key has been read. */
  method ReadMapEntry(env: G.Env, keys: KeyKind, kind: Kind, text: bytes, m: map<MapKey, Value>, d: Decoder)
      returns (m': map<MapKey, Value>, err: bool)
    requires d.Valid() && d.depth >= 0
    modifies d
    ensures var key, r := KeyFor(ByCode, keys, text), ReadMapValue(env, ByCode, kind, old(d.Rest()), old(d.depth));
            && err == (key.None? || key.value in m || r.Err?) && d.Valid()
            && (!err ==> m' == With(m, key.value, r.value) && d.Stands(r.rest, old(d.depth)) && d.off > old(d.off))
  {
    hide ReadMapValue, ParseKey;
    match ParseKey(keys, text)
    case None => return m, true;
    case Some(key) =>
      if key in m {
        return m, true;
      }
      var item;
      item, err := MapValue(env, kind, d);
      m' := m;
      if err {
        return;
      }
      match item
      case Unknown =>
      case Known(v) => m' := m[key := v];
  }

  /** The value decoder of a map. */
  method MapValue(env: G.Env, kind: Kind, d: Decoder) returns (item: G.Item, err: bool)
    requires d.Valid() && d.depth >= 0
    modifies d
    ensures var r := ReadMapValue(env, ByCode, kind, old(d.Rest()), old(d.depth));
            err == r.Err? && d.Valid() && (!err ==> item == r.value && d.Stands(r.rest, old(d.depth)) && d.off > old(d.off))
  {
    hide C.ReadNull, G.ReadItem;
    if kind.MessageKind? {
      ghost var s, depth: nat := d.Rest(), d.depth;
      var isNull := d.ReadNull();
      if isNull {
        return G.Unknown, true;
      }
      SkippedItem(env, true, kind, s, depth);
    }
    item, err := ReadItem(env, true, kind, d);
  }

  /** An entry: separator, quoted key, colon, value, and the rest. */
  lemma EntriesNext(schema: Schema, kind: Kind, es: seq<MapEntry>, i: nat, k: bytes)
    requires i < |es|
    ensures EntriesTo(schema, kind, es, i, k) ==
            (if i > 0 then [COMMA] else []) +
            (T.Quote(KeyText(es[i].key)) + ([COLON] + (E.ValueTo(schema, kind, es[i].v, []) + EntriesTo(schema, kind, es, i + 1, k))))
  {
    hide E.ValueTo, KeyTo, T.Quote;
    ValueAppend(schema, kind, es[i].v, EntriesTo(schema, kind, es, i + 1, k));
    KeyIsQuoted(es[i].key, [COLON] + E.ValueTo(schema, kind, es[i].v, EntriesTo(schema, kind, es, i + 1, k)));
  }

  lemma EntriesLast(schema: Schema, kind: Kind, es: seq<MapEntry>, k: bytes)
    ensures EntriesTo(schema, kind, es, |es|, k) == [RBRACE] + k && [RBRACE] + [] == [RBRACE]
  {
  }

  /** A key between quotes. */
  method WriteKey(key: MapKey, e: Encoder)
    modifies e
    ensures e.buf == old(e.buf) + T.Quote(KeyText(key))
  {
    KeyIsQuoted(key, []);
    NothingMore(T.Quote(KeyText(key)));
    match key
    case StringKey(s) => e.String(s);
    case IntKey(n) =>
      NothingMore(N.QuotedDecimal(n));
      e.IntString(n);
    case BoolKey(b) =>
      NothingMore([QUOTE] + E.BoolText(b) + [QUOTE]);
      e.Raw(if b then [QUOTE] + TRUE + [QUOTE] else [QUOTE] + FALSE + [QUOTE]);
  }

  /** WriteMap: the keys are collected in some order, sorted, and printed with their values. */
  method WriteMap(schema: Schema, kind: Kind, m: map<MapKey, Value>, e: Encoder) returns (ghost order: seq<MapKey>)
    requires forall key :: key in m ==> E.ValueOk(schema, kind, m[key])
    modifies e
    ensures Distinct(order) && Elements(order) == m.Keys
    ensures e.buf == old(e.buf) + Maps.WriteMap(schema, kind, m, order, [])
  {
    var found := CollectKeys(m);
    order := found;
    SortedIn(m, found);
    var keys := Sort(KeyLess, found);
    var es := EntriesOf(keys, m);
    WriteEntries(schema, kind, es, e);
  }

  method WriteEntries(schema: Schema, kind: Kind, es: seq<MapEntry>, e: Encoder)
    requires forall i :: 0 <= i < |es| ==> E.ValueOk(schema, kind, es[i].v)
    modifies e
    ensures e.buf == old(e.buf) + ([LBRACE] + EntriesTo(schema, kind, es, 0, []))
  {
    hide *;
    e.Byte(LBRACE);
    ghost var start := e.buf;
    for i := 0 to |es|
      invariant start + EntriesTo(schema, kind, es, 0, []) == e.buf + EntriesTo(schema, kind, es, i, [])
    {
      EntriesNext(schema, kind, es, i, []);
      ghost var before := e.buf;
      if i > 0 {
        e.Byte(COMMA);
      }
      WriteKey(es[i].key, e);
      e.Byte(COLON);
      MarshalValue(schema, kind, es[i].v, e);
      Grows(before, if i > 0 then [COMMA] else [], T.Quote(KeyText(es[i].key)), E.ValueTo(schema, kind, es[i].v, []),
            EntriesTo(schema, kind, es, i + 1, []));
    }
    EntriesLast(schema, kind, es, []);
    e.Byte(RBRACE);
    assert old(e.buf) + ([LBRACE] + EntriesTo(schema, kind, es, 0, [])) == old(e.buf) + [LBRACE] + EntriesTo(schema, kind, es, 0, []);
  }
}
