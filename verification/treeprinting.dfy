/**
 What is printed for maps with keys of every kind and for value trees, written out as in `Printing`.
 */
module TreePrinting {
  import opened Bytes
  import opened Schema
  import opened Printing
  import opened Order
  import Encode
  import Text
  import M = Maps
  import N = Numbers
  import S = Spelling
  import V = Values

  // ---------------------------------------------------------------- maps

  /** All keys stand in quotes. */
  function ShownKey(key: M.MapKey): bytes {
    match key
    case BoolKey(b) => InQuotes(if b then Ascii("true") else Ascii("false"))
    case IntKey(n) => InQuotes(N.Decimal(n))
    case StringKey(s) => ShownString(s)
  }

  ghost function EntryPart(schema: Schema, kind: Kind, e: M.MapEntry): bytes {
    ShownKey(e.key) + (Ascii(":") + ShownValue(schema, kind, e.v))
  }

  ghost function EntryParts(schema: Schema, kind: Kind, es: seq<M.MapEntry>): (parts: seq<bytes>) {
    seq(|es|, i requires 0 <= i < |es| => EntryPart(schema, kind, es[i]))
  }

  lemma KeyShows(key: M.MapKey, k: bytes)
    ensures M.KeyTo(key, k) == ShownKey(key) + k
  {
    Signs();
    if key.StringKey? {
      QuoteShows(key.s);
    }
    hide N.Decimal, ShownString, Ascii;
  }

  lemma EntryShows(schema: Schema, kind: Kind, e: M.MapEntry, k: bytes)
    requires SchemaOk(schema) && Encode.ValueOk(schema, kind, e.v)
    ensures M.KeyTo(e.key, [COLON] + Encode.ValueTo(schema, kind, e.v, k)) == EntryPart(schema, kind, e) + k
  {
    Signs();
    hide SchemaOk, Encode.ValueOk, Encode.ValueTo, ShownValue, ShownKey, M.KeyTo, Ascii;
    ValueShows(schema, kind, e.v, k);
    KeyShows(e.key, [COLON] + Encode.ValueTo(schema, kind, e.v, k));
    var a, b := ShownKey(e.key), ShownValue(schema, kind, e.v);
    assert a + ([COLON] + (b + k)) == a + ([COLON] + b) + k;
  }

  lemma EntryPartsFrom(schema: Schema, kind: Kind, es: seq<M.MapEntry>, i: nat)
    requires i <= |es|
    ensures |EntryParts(schema, kind, es)| == |es|
    ensures EntryParts(schema, kind, es)[i..] ==
            if i == |es| then [] else [EntryPart(schema, kind, es[i])] + EntryParts(schema, kind, es)[i + 1..]
  {
    hide EntryPart;
  }

  lemma {:induction false} EntriesShow(schema: Schema, kind: Kind, es: seq<M.MapEntry>, i: nat, k: bytes)
    requires SchemaOk(schema) && i <= |es| && forall j :: 0 <= j < |es| ==> Encode.ValueOk(schema, kind, es[j].v)
    ensures |EntryParts(schema, kind, es)| == |es|
    ensures M.EntriesTo(schema, kind, es, i, k) ==
            (if i > 0 then Further(EntryParts(schema, kind, es)[i..]) else Joined(EntryParts(schema, kind, es)[i..])) + ([RBRACE] + k)
    decreases |es| - i
  {
    hide *;
    EntryPartsFrom(schema, kind, es, i);
    M.EntriesUnfold(schema, kind, es, i, k);
    JoinedNone([RBRACE] + k);
    if i < |es| {
      EntriesShow(schema, kind, es, i + 1, k);
      EntryShows(schema, kind, es[i], M.EntriesTo(schema, kind, es, i + 1, k));
      JoinedHead(EntryPart(schema, kind, es[i]), EntryParts(schema, kind, es)[i + 1..], [RBRACE] + k);
    }
  }

  /** The keys of a map, each once: integers ascending, false before true, strings in byte order. */
  ghost predicate KeysInOrder(order: seq<M.MapKey>, keys: set<M.MapKey>) {
    && (forall i, j :: 0 <= i < j < |order| ==> S.Precedes(order[i], order[j]))
    && (forall key :: key in order <==> key in keys)
  }

  /** Sorting the keys of one kind puts them in order, in which there is only one way. */
  lemma SortOrders(kind: M.KeyKind, keys: seq<M.MapKey>, order: seq<M.MapKey>)
    requires Distinct(keys) && forall key :: key in keys ==> M.KeyOk(kind, key)
    ensures KeysInOrder(order, Elements(keys)) <==> order == Sort(M.KeyLess, keys)
  {
    hide M.KeyOk, M.KeyLess, S.Precedes;
    M.KeyIsOrder();
    SortAscends(M.KeyLess, keys);
    var sorted := Sort(M.KeyLess, keys);
    hide Sort;
    assert forall key :: key in sorted <==> key in Elements(sorted);
    assert forall key :: key in keys <==> key in Elements(keys);
    forall a, b | a in keys && b in keys ensures M.KeyLess(a, b) <==> S.Precedes(a, b) {
      S.PrecedesIs(kind, a, b);
    }
    assert forall i :: 0 <= i < |sorted| ==> sorted[i] in keys;
    if KeysInOrder(order, Elements(keys)) {
      assert forall i :: 0 <= i < |order| ==> order[i] in keys;
      assert Elements(order) == Elements(keys);
      AscendingUnique(M.KeyLess, order, sorted);
    }
  }

  lemma MapUnfolds(schema: Schema, kind: Kind, m: map<M.MapKey, Value>, keys: seq<M.MapKey>, k: bytes)
    requires Distinct(keys) && Elements(keys) == m.Keys
    ensures var order := Sort(M.KeyLess, keys);
            && (forall key :: key in order ==> key in m)
            && M.WriteMap(schema, kind, m, keys, k) == [LBRACE] + M.EntriesTo(schema, kind, M.EntriesOf(order, m), 0, k)
  {
    M.SortedIn(m, keys);
    hide Sort, M.EntriesTo, M.KeyLess;
  }

  lemma Braces(parts: seq<bytes>, k: bytes)
    ensures parts[0..] == parts
    ensures [LBRACE] + (Joined(parts) + ([RBRACE] + k)) == Ascii("{") + Joined(parts) + Ascii("}") + k
  {
    Signs();
    hide Ascii, Joined;
  }

  lemma KeysAre(m: map<M.MapKey, Value>, keys: seq<M.MapKey>, order: seq<M.MapKey>)
    requires Elements(keys) == m.Keys && KeysInOrder(order, m.Keys)
    ensures (forall key :: key in keys <==> key in m) && (forall key :: key in order ==> key in m)
    ensures var es := M.EntriesOf(order, m); forall j :: 0 <= j < |es| ==> es[j].key in m && es[j].v == m[es[j].key]
  {
    assert forall key :: key in keys <==> key in Elements(keys);
  }

  /** WriteMap prints the entries in the order of their keys, whatever order they were enumerated in. */
  lemma MapShown(schema: Schema, keyKind: M.KeyKind, kind: Kind, m: map<M.MapKey, Value>, keys: seq<M.MapKey>, order: seq<M.MapKey>, k: bytes)
    requires SchemaOk(schema) && Distinct(keys) && Elements(keys) == m.Keys
    requires forall key :: key in m ==> M.KeyOk(keyKind, key) && Encode.ValueOk(schema, kind, m[key])
    requires KeysInOrder(order, m.Keys)
    ensures forall key :: key in order ==> key in m
    ensures M.WriteMap(schema, kind, m, keys, k) ==
            Ascii("{") + Joined(EntryParts(schema, kind, M.EntriesOf(order, m))) + Ascii("}") + k
  {
    hide *;
    KeysAre(m, keys, order);
    SortOrders(keyKind, keys, order);
    MapUnfolds(schema, kind, m, keys, k);
    EntriesShow(schema, kind, M.EntriesOf(order, m), 0, k);
    Braces(EntryParts(schema, kind, M.EntriesOf(order, m)), k);
  }

  // ---------------------------------------------------------------- value trees

  ghost function ShownTree(v: V.PValue): bytes
    decreases v
  {
    match v
    case Unset => []
    case NotFinite => []
    case NullV => Ascii("null")
    case NumberV(t) => t
    case StringV(s) => ShownString(s)
    case BoolV(b) => if b then Ascii("true") else Ascii("false")
    case StructV(m) =>
      var keys := KeysIn(m.Keys);
      Ascii("{") + Joined(seq(|keys|, i requires 0 <= i < |keys| => ShownString(keys[i]) + (Ascii(":") + ShownTree(m[keys[i]])))) + Ascii("}")
    case ListV(vs) => Ascii("[") + Joined(seq(|vs|, i requires 0 <= i < |vs| => ShownTree(vs[i]))) + Ascii("]")
  }

  ghost function TreeParts(vs: seq<V.PValue>): seq<bytes> {
    seq(|vs|, i requires 0 <= i < |vs| => ShownTree(vs[i]))
  }

  ghost function MemberPart(m: map<bytes, V.PValue>, key: bytes): bytes
    requires key in m
  {
    ShownString(key) + (Ascii(":") + ShownTree(m[key]))
  }

  ghost function MemberParts(keys: seq<bytes>, m: map<bytes, V.PValue>): seq<bytes>
    requires forall x :: x in keys ==> x in m
  {
    seq(|keys|, i requires 0 <= i < |keys| => MemberPart(m, keys[i]))
  }

  lemma ElemsUnfold(v: V.PValue, i: nat, k: bytes)
    requires v.ListV? && i <= |v.vs|
    ensures i == |v.vs| ==> V.WriteElems(v, i, k) == Some([RBRACKET] + k)
    ensures i < |v.vs| && V.WriteElems(v, i + 1, k).Some? && V.WriteTo(v.vs[i], V.WriteElems(v, i + 1, k).value).Some? ==>
            var s := V.WriteTo(v.vs[i], V.WriteElems(v, i + 1, k).value).value;
            V.WriteElems(v, i, k) == Some(if i > 0 then [COMMA] + s else s)
  {
    assert forall s: bytes :: [] + s == s;
    hide V.WriteTo;
  }

  lemma FieldsUnfold(v: V.PValue, keys: seq<bytes>, i: nat, k: bytes)
    requires v.StructV? && i <= |keys| && forall x :: x in keys ==> x in v.fields
    ensures i == |keys| ==> V.WriteFields(v, keys, i, k) == Some([RBRACE] + k)
    ensures i < |keys| && V.WriteFields(v, keys, i + 1, k).Some? && V.WriteTo(v.fields[keys[i]], V.WriteFields(v, keys, i + 1, k).value).Some? ==>
            var s := Text.Quote(keys[i]) + ([COLON] + V.WriteTo(v.fields[keys[i]], V.WriteFields(v, keys, i + 1, k).value).value);
            V.WriteFields(v, keys, i, k) == Some(if i > 0 then [COMMA] + s else s)
  {
    assert forall s: bytes :: [] + s == s;
    hide V.WriteTo, Text.Quote;
  }

  lemma TreePartsFrom(vs: seq<V.PValue>, i: nat)
    requires i <= |vs|
    ensures |TreeParts(vs)| == |vs|
    ensures TreeParts(vs)[i..] == if i == |vs| then [] else [ShownTree(vs[i])] + TreeParts(vs)[i + 1..]
  {
    hide ShownTree;
  }

  lemma MemberPartsFrom(keys: seq<bytes>, m: map<bytes, V.PValue>, i: nat)
    requires i <= |keys| && forall x :: x in keys ==> x in m
    ensures |MemberParts(keys, m)| == |keys|
    ensures MemberParts(keys, m)[i..] == if i == |keys| then [] else [MemberPart(m, keys[i])] + MemberParts(keys, m)[i + 1..]
  {
    hide MemberPart;
  }

  lemma {:induction false} ElemsShow(v: V.PValue, i: nat, k: bytes)
    requires v.ListV? && i <= |v.vs| && forall j :: 0 <= j < |v.vs| ==> V.Printable(v.vs[j])
    ensures |TreeParts(v.vs)| == |v.vs|
    ensures V.WriteElems(v, i, k) ==
            Some((if i > 0 then Further(TreeParts(v.vs)[i..]) else Joined(TreeParts(v.vs)[i..])) + ([RBRACKET] + k))
    decreases v, 0, |v.vs| - i
  {
    hide *;
    ElemsUnfold(v, i, k);
    TreePartsFrom(v.vs, i);
    JoinedNone([RBRACKET] + k);
    if i < |v.vs| {
      ElemsShow(v, i + 1, k);
      TreeShows(v.vs[i], V.WriteElems(v, i + 1, k).value);
      JoinedHead(ShownTree(v.vs[i]), TreeParts(v.vs)[i + 1..], [RBRACKET] + k);
      assert ShownTree(v.vs[i]) + (Further(TreeParts(v.vs)[i + 1..]) + ([RBRACKET] + k)) == V.WriteTo(v.vs[i], V.WriteElems(v, i + 1, k).value).value;
    }
  }

  lemma MemberHead(m: map<bytes, V.PValue>, key: bytes, k: bytes)
    requires key in m
    ensures Text.Quote(key) + ([COLON] + (ShownTree(m[key]) + k)) == MemberPart(m, key) + k
  {
    Signs();
    QuoteShows(key);
    hide Text.Quote, ShownString, Ascii, ShownTree;
  }

  lemma {:induction false} MembersShow(v: V.PValue, keys: seq<bytes>, i: nat, k: bytes)
    requires v.StructV? && i <= |keys| && (forall x :: x in keys ==> x in v.fields) && forall x :: x in v.fields ==> V.Printable(v.fields[x])
    ensures |MemberParts(keys, v.fields)| == |keys|
    ensures V.WriteFields(v, keys, i, k) ==
            Some((if i > 0 then Further(MemberParts(keys, v.fields)[i..]) else Joined(MemberParts(keys, v.fields)[i..])) + ([RBRACE] + k))
    decreases v, 0, |keys| - i
  {
    hide *;
    FieldsUnfold(v, keys, i, k);
    MemberPartsFrom(keys, v.fields, i);
    JoinedNone([RBRACE] + k);
    if i < |keys| {
      var part, parts := MemberPart(v.fields, keys[i]), MemberParts(keys, v.fields)[i + 1..];
      MembersShow(v, keys, i + 1, k);
      TreeShows(v.fields[keys[i]], V.WriteFields(v, keys, i + 1, k).value);
      MemberHead(v.fields, keys[i], V.WriteFields(v, keys, i + 1, k).value);
      JoinedHead(part, parts, [RBRACE] + k);
    }
  }

  lemma StructShown(v: V.PValue)
    requires v.StructV?
    ensures forall x :: x in KeysIn(v.fields.Keys) ==> x in v.fields
    ensures ShownTree(v) == Ascii("{") + Joined(MemberParts(KeysIn(v.fields.Keys), v.fields)) + Ascii("}")
  {
    hide Joined, Ascii, ShownString, KeysIn;
    var keys := KeysIn(v.fields.Keys);
    assert seq(|keys|, i requires 0 <= i < |keys| => ShownString(keys[i]) + (Ascii(":") + ShownTree(v.fields[keys[i]]))) == MemberParts(keys, v.fields);
  }

  lemma StructWrites(v: V.PValue, k: bytes)
    requires v.StructV? && V.WriteFields(v, KeysIn(v.fields.Keys), 0, k).Some?
    ensures V.WriteTo(v, k) == Some([LBRACE] + V.WriteFields(v, KeysIn(v.fields.Keys), 0, k).value)
  {
    KeysSorted(v.fields.Keys);
    hide KeysIn, StringKeys, V.WriteFields;
  }

  lemma ListShown(v: V.PValue)
    requires v.ListV?
    ensures ShownTree(v) == Ascii("[") + Joined(TreeParts(v.vs)) + Ascii("]")
  {
    hide Joined, Ascii;
    assert seq(|v.vs|, i requires 0 <= i < |v.vs| => ShownTree(v.vs[i])) == TreeParts(v.vs);
  }

  lemma ListWrites(v: V.PValue, k: bytes)
    requires v.ListV? && V.WriteElems(v, 0, k).Some?
    ensures V.WriteTo(v, k) == Some([LBRACKET] + V.WriteElems(v, 0, k).value)
  {
    hide V.WriteElems;
  }

  lemma Brackets(parts: seq<bytes>, k: bytes)
    ensures parts[0..] == parts
    ensures [LBRACKET] + (Joined(parts) + ([RBRACKET] + k)) == Ascii("[") + Joined(parts) + Ascii("]") + k
  {
    Signs();
    hide Ascii, Joined;
  }

  lemma FlatShows(v: V.PValue, k: bytes)
    requires V.Printable(v) && !v.StructV? && !v.ListV?
    ensures V.WriteTo(v, k) == Some(ShownTree(v) + k)
  {
    Signs();
    assert Ascii("null") == NULL;
    if v.StringV? {
      QuoteShows(v.s);
    }
    hide Ascii, ShownString, Text.Quote;
  }

  lemma HoldsPrintable(v: V.PValue)
    requires V.Printable(v)
    ensures v.StructV? ==> forall x :: x in v.fields ==> V.Printable(v.fields[x])
    ensures v.ListV? ==> forall i :: 0 <= i < |v.vs| ==> V.Printable(v.vs[i])
  {
  }

  /** The text of a value tree: members in byte order of their keys, elements in their order, and no space anywhere. */
  lemma {:induction false} TreeShows(v: V.PValue, k: bytes)
    requires V.Printable(v)
    ensures V.WriteTo(v, k) == Some(ShownTree(v) + k)
    decreases v, 1
  {
    hide *;
    HoldsPrintable(v);
    if v.StructV? {
      StructShown(v);
      MembersShow(v, KeysIn(v.fields.Keys), 0, k);
      StructWrites(v, k);
      Braces(MemberParts(KeysIn(v.fields.Keys), v.fields), k);
    } else if v.ListV? {
      ListShown(v);
      ElemsShow(v, 0, k);
      ListWrites(v, k);
      Brackets(TreeParts(v.vs), k);
    } else {
      FlatShows(v, k);
    }
  }
}
