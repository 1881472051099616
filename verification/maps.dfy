/**
 Maps with keys and values of every kind: WriteMap and StringMap print them in the order of their
 keys, and ReadMap rebuilds them and refuses repeated keys.
 */
module Maps {
  import opened Bytes
  import opened Text
  import opened Numbers
  import opened Cursor
  import opened Schema
  import opened Order
  import opened Generated
  import opened Encode
  import opened RoundTrip
  import Table

  // ---------------------------------------------------------------- keys

  datatype KeyKind = BoolKeys | Int32Keys | Int64Keys | Uint32Keys | Uint64Keys | StringKeyKind

  datatype MapKey = BoolKey(b: bool) | IntKey(n: int) | StringKey(s: bytes)

  /** The keys a Go map with this key type can have. */
  predicate KeyOk(kind: KeyKind, key: MapKey) {
    match kind
    case BoolKeys => key.BoolKey?
    case Int32Keys => key.IntKey? && IsInt32(key.n)
    case Int64Keys => key.IntKey? && IsInt64(key.n)
    case Uint32Keys => key.IntKey? && IsUint32(key.n)
    case Uint64Keys => key.IntKey? && IsUint64(key.n)
    case StringKeyKind => key.StringKey?
  }

  function Rank(key: MapKey): nat {
    match key case BoolKey(_) => 0 case IntKey(_) => 1 case StringKey(_) => 2
  }

  /** Numeric order for integers, false before true, byte order for strings. */
  predicate KeyLess(a: MapKey, b: MapKey) {
    match (a, b)
    case (BoolKey(x), BoolKey(y)) => !x && y
    case (IntKey(x), IntKey(y)) => x < y
    case (StringKey(x), StringKey(y)) => LexLess(x, y)
    case _ => Rank(a) < Rank(b)
  }

  lemma KeyIsOrder()
    ensures IsOrder(KeyLess)
  {
    LexIsOrder();
    forall a: MapKey, b, c | KeyLess(a, b) && KeyLess(b, c) ensures KeyLess(a, c) {
      if a.StringKey? && b.StringKey? && c.StringKey? {
        LexTrans(a.s, b.s, c.s);
      }
    }
    forall a: MapKey, b ensures KeyLess(a, b) || a == b || KeyLess(b, a) {
      if a.StringKey? && b.StringKey? {
        LexTotal(a.s, b.s);
      }
    }
    forall a: MapKey ensures !KeyLess(a, a) {
      if a.StringKey? {
        LexTotal(a.s, a.s);
      }
    }
  }

  /** What stands between the quotes. */
  function KeyText(key: MapKey): bytes {
    match key
    case BoolKey(b) => BoolText(b)
    case IntKey(n) => Decimal(n)
    case StringKey(s) => s
  }

  /** The texts strconv.ParseBool takes for true and for false. */
  const TRUTHS: seq<bytes> := [[49], [116], [84], [84, 82, 85, 69], TRUE, [84, 114, 117, 101]]
  const FALSEHOODS: seq<bytes> := [[48], [102], [70], [70, 65, 76, 83, 69], FALSE, [70, 97, 108, 115, 101]]

  function IntWithin(p: Parsed, lo: int, hi: int): Option<MapKey> {
    match p
    case Number(n) => if lo <= n <= hi then Some(IntKey(n)) else None
    case _ => None
  }

  /** The key a text stands for. */
  function ParseKey(kind: KeyKind, text: bytes): Option<MapKey> {
    match kind
    case BoolKeys => if text in TRUTHS then Some(BoolKey(true)) else if text in FALSEHOODS then Some(BoolKey(false)) else None
    case Int32Keys => IntWithin(ParseInt64(text), -MAX_INT32 - 1, MAX_INT32)
    case Int64Keys => IntWithin(ParseInt64(text), -MAX_INT64 - 1, MAX_INT64)
    case Uint32Keys => IntWithin(ParseUint64(text), 0, MAX_UINT32)
    case Uint64Keys => IntWithin(ParseUint64(text), 0, MAX_UINT64)
    case StringKeyKind => Some(StringKey(text))
  }

  /** Maps are read by generated code, or by the table decoder. */
  datatype Reader = ByCode | ByTable

  /** The key a reader takes a text for: the table takes only the printed forms of booleans. */
  function KeyFor(reader: Reader, kind: KeyKind, text: bytes): Option<MapKey> {
    if reader.ByTable? && kind.BoolKeys? then
      if text == TRUE then Some(BoolKey(true)) else if text == FALSE then Some(BoolKey(false)) else None
    else ParseKey(kind, text)
  }

  /** Every key is read back from its text. */
  lemma KeyReadsBack(kind: KeyKind, key: MapKey)
    requires KeyOk(kind, key)
    ensures ParseKey(kind, KeyText(key)) == Some(key)
  {
    match key
    case BoolKey(b) =>
      assert TRUTHS[4] == TRUE && FALSEHOODS[4] == FALSE;
      assert FALSE !in TRUTHS by {
        assert forall t :: t in TRUTHS ==> |t| < 5;
      }
    case IntKey(n) => ParseReadsBack(n);
    case StringKey(_) =>
  }

  /** A key as printed: strings are escaped, everything else is put between quotes. */
  function KeyTo(key: MapKey, k: bytes): bytes {
    match key
    case StringKey(s) => Quote(s) + k
    case _ => ([QUOTE] + KeyText(key) + [QUOTE]) + k
  }

  lemma KeyIsQuoted(key: MapKey, k: bytes)
    ensures KeyTo(key, k) == Quote(KeyText(key)) + k
  {
    if !key.StringKey? {
      PlainEscape(KeyText(key));
    }
  }

  // ---------------------------------------------------------------- printing

  datatype MapEntry = MapEntry(key: MapKey, v: Value)

  /** The entries from `i` on and the closing brace. */
  ghost function EntriesTo(schema: Schema, kind: Kind, es: seq<MapEntry>, i: nat, k: bytes): bytes
    requires i <= |es|
    decreases |es| - i
  {
    if i == |es| then [RBRACE] + k
    else (if i > 0 then [COMMA] else []) +
         KeyTo(es[i].key, [COLON] + ValueTo(schema, kind, es[i].v, EntriesTo(schema, kind, es, i + 1, k)))
  }

  function EntriesOf(keys: seq<MapKey>, m: map<MapKey, Value>): (es: seq<MapEntry>)
    requires forall key :: key in keys ==> key in m
    ensures |es| == |keys| && forall i :: 0 <= i < |es| ==> es[i] == MapEntry(keys[i], m[keys[i]])
  {
    seq(|keys|, i requires 0 <= i < |keys| => MapEntry(keys[i], m[keys[i]]))
  }

  /** WriteMap, where `keys` is the order in which the map happened to be enumerated. */
  ghost function WriteMap(schema: Schema, kind: Kind, m: map<MapKey, Value>, keys: seq<MapKey>, k: bytes): bytes
    requires Distinct(keys) && Elements(keys) == m.Keys
  {
    SortedIn(m, keys);
    [LBRACE] + EntriesTo(schema, kind, EntriesOf(Sort(KeyLess, keys), m), 0, k)
  }

  lemma SortedIn(m: map<MapKey, Value>, keys: seq<MapKey>)
    requires Distinct(keys) && Elements(keys) == m.Keys
    ensures Elements(Sort(KeyLess, keys)) == m.Keys && Ascending(KeyLess, Sort(KeyLess, keys))
    ensures forall key :: key in Sort(KeyLess, keys) ==> key in m
  {
    KeyIsOrder();
    SortAscends(KeyLess, keys);
    forall key | key in Sort(KeyLess, keys) ensures key in m {
      assert key in Elements(Sort(KeyLess, keys));
    }
  }

  /** Map text is canonical: it is the same for every order of enumeration. */
  lemma WriteMapCanonical(schema: Schema, kind: Kind, m: map<MapKey, Value>, keys: seq<MapKey>, others: seq<MapKey>, k: bytes)
    requires Distinct(keys) && Elements(keys) == m.Keys && Distinct(others) && Elements(others) == m.Keys
    ensures WriteMap(schema, kind, m, keys, k) == WriteMap(schema, kind, m, others, k)
  {
    KeyIsOrder();
    SortCanonical(KeyLess, keys);
    SortCanonical(KeyLess, others);
  }

  /** StringMap too prints the same bytes however the map is enumerated. */
  lemma StringMapCanonical(m: map<bytes, bytes>, keys: seq<bytes>, k: bytes)
    requires Distinct(keys) && Elements(keys) == m.Keys
    ensures (forall key :: key in Sort(LexLess, keys) ==> key in m)
    ensures [LBRACE] + PairsTo(Sort(LexLess, keys), 0, m, k) == MapTo(m, k)
  {
    LexIsOrder();
    SortCanonical(LexLess, keys);
    AscendingUnique(LexLess, Sort(LexLess, keys), StringKeys(m.Keys));
    SortAscends(LexLess, keys);
    forall key | key in Sort(LexLess, keys) ensures key in m {
      assert key in Elements(Sort(LexLess, keys));
    }
  }

  // ---------------------------------------------------------------- reading

  /** The value decoder of a map: like an element of a list, a message must not be null. */
  function ReadMapValue(env: Env, reader: Reader, kind: Kind, s: bytes, depth: nat): (r: Read<Item>)
    ensures r.Ok? ==> |r.rest| < |s|
  {
    if kind.MessageKind? && ReadNull(s).Some? then Err
    else if reader.ByTable? then Table.IntoItem(env, kind, None, s, depth)
    else ReadItem(env, true, kind, s, depth)
  }

  /** The loop behind the brace. An entry with a discarded enum name is passed over without a trace. */
  function ReadEntries(env: Env, reader: Reader, keys: KeyKind, kind: Kind, s: bytes, first: bool, depth: nat, m: map<MapKey, Value>): (r: Read<map<MapKey, Value>>)
    ensures r.Ok? ==> |r.rest| < |s|
    decreases |s|
  {
    match NextKey(s, first)
    case NoKey => Err
    case EndObject(rest) => Ok(m, rest)
    case Key(text, u) =>
      match KeyFor(reader, keys, text)
      case None => Err
      case Some(key) =>
        if key in m then Err
        else
          match ReadMapValue(env, reader, kind, u, depth)
          case Err => Err
          case Ok(Unknown, rest) => ReadEntries(env, reader, keys, kind, rest, false, depth, m)
          case Ok(Known(v), rest) => ReadEntries(env, reader, keys, kind, rest, false, depth, m[key := v])
  }

  /** ReadMap, and unmarshalMap of the table decoder. */
  function ReadMap(env: Env, reader: Reader, keys: KeyKind, kind: Kind, s: bytes, depth: nat): Read<map<MapKey, Value>> {
    match Begin(s, LBRACE, depth)
    case None => Err
    case Some(u) => ReadEntries(env, reader, keys, kind, u, true, depth + 1, map[])
  }

  // ---------------------------------------------------------------- printing then reading

  ghost predicate EntryOk(env: Env, keys: KeyKind, kind: Kind, depth: nat, e: MapEntry) {
    KeyOk(keys, e.key) && ValueOk(env.schema, kind, e.v) && ValueFits(e.v, MAX_DEPTH - depth)
  }

  /** No key among the first `n` entries occurs twice. */
  predicate KeysDistinct(es: seq<MapEntry>, n: nat) {
    forall i, j :: 0 <= i < j < n && j < |es| ==> es[i].key != es[j].key
  }

  function MapOf(es: seq<MapEntry>, n: nat): map<MapKey, Value>
    requires n <= |es|
  {
    if n == 0 then map[] else MapOf(es, n - 1)[es[n - 1].key := es[n - 1].v]
  }

  lemma {:induction false} MapOfKeys(es: seq<MapEntry>, n: nat)
    requires n <= |es|
    ensures forall key :: key in MapOf(es, n) <==> exists i :: 0 <= i < n && es[i].key == key
  {
    if n > 0 {
      MapOfKeys(es, n - 1);
    }
  }

  /** One printed entry is found by the loop. */
  lemma EntryReads(env: Env, keys: KeyKind, kind: Kind, e: MapEntry, first: bool, more: bytes, depth: nat)
    requires SchemaOk(env.schema) && (kind.EnumKind? ==> EnumOk(kind.values)) && EntryOk(env, keys, kind, depth, e) && Bytes.Ended(more)
    ensures var u := ValueTo(env.schema, kind, e.v, more);
            && NextKey((if first then [] else [COMMA]) + KeyTo(e.key, [COLON] + u), first) == Key(KeyText(e.key), u)
            && KeyFor(ByCode, keys, KeyText(e.key)) == Some(e.key)
            && ReadMapValue(env, ByCode, kind, u, depth) == Ok(Known(e.v), more)
  {
    var u := ValueTo(env.schema, kind, e.v, more);
    KeyReadsBack(keys, e.key);
    ItemReads(env, kind, e.v, more, depth);
    ValueStarts(env, kind, e.v, more);
    StartsValueFacts(u);
    KeyIsQuoted(e.key, [COLON] + u);
    hide ValueTo, KeyTo, KeyText, NextKey, Quote;
    KeyReads(first, KeyText(e.key), u);
    QuoteSplit(KeyText(e.key), u);
  }

  lemma QuoteSplit(s: bytes, u: bytes)
    ensures Quote(s) + ([COLON] + u) == Quote(s) + [COLON] + u
  {
  }

  /** The loop gives the map of the entries when their keys are distinct and refuses them otherwise. */
  lemma {:induction false} EntriesRead(env: Env, keys: KeyKind, kind: Kind, es: seq<MapEntry>, i: nat, k: bytes, depth: nat)
    requires SchemaOk(env.schema) && (kind.EnumKind? ==> EnumOk(kind.values)) && i <= |es|
    requires forall j :: 0 <= j < |es| ==> EntryOk(env, keys, kind, depth, es[j])
    requires KeysDistinct(es, i)
    ensures ReadEntries(env, ByCode, keys, kind, EntriesTo(env.schema, kind, es, i, k), i == 0, depth, MapOf(es, i)) ==
            if KeysDistinct(es, |es|) then Ok(MapOf(es, |es|), k) else Err
    decreases |es| - i
  {
    hide *;
    EntriesUnfold(env.schema, kind, es, i, k);
    if i == |es| {
      EntriesEnd(k, i == 0);
      EntryStops(env, ByCode, keys, kind, [RBRACE] + k, i == 0, depth, MapOf(es, i));
    } else {
      var e, more := es[i], EntriesTo(env.schema, kind, es, i + 1, k);
      EntriesUnfold(env.schema, kind, es, i + 1, k);
      EntryReads(env, keys, kind, e, i == 0, more, depth);
      LoopGoesOn(env, keys, kind, EntriesTo(env.schema, kind, es, i, k), i == 0, depth, MapOf(es, i), e,
                 ValueTo(env.schema, kind, e.v, more), more);
      MapOfKeys(es, i);
      DistinctNext(es, i);
      if e.key !in MapOf(es, i) {
        MapOfNext(es, i);
        EntriesRead(env, keys, kind, es, i + 1, k, depth);
      }
    }
  }

  lemma EntriesUnfold(schema: Schema, kind: Kind, es: seq<MapEntry>, i: nat, k: bytes)
    requires i <= |es|
    ensures EntriesTo(schema, kind, es, i, k) ==
            if i == |es| then [RBRACE] + k
            else (if i == 0 then [] else [COMMA]) +
                 KeyTo(es[i].key, [COLON] + ValueTo(schema, kind, es[i].v, EntriesTo(schema, kind, es, i + 1, k)))
    ensures i > 0 ==> Bytes.Ended(EntriesTo(schema, kind, es, i, k))
  {
    hide KeyTo, ValueTo;
  }

  /** The loop where it ends or fails at the key. */
  lemma EntryStops(env: Env, reader: Reader, keys: KeyKind, kind: Kind, s: bytes, first: bool, depth: nat, m: map<MapKey, Value>)
    ensures NextKey(s, first).NoKey? ==> ReadEntries(env, reader, keys, kind, s, first, depth, m) == Err
    ensures NextKey(s, first).EndObject? ==> ReadEntries(env, reader, keys, kind, s, first, depth, m) == Ok(m, NextKey(s, first).rest)
  {
    hide NextKey;
  }

  lemma LoopGoesOn(env: Env, keys: KeyKind, kind: Kind, s: bytes, first: bool, depth: nat, m: map<MapKey, Value>, e: MapEntry, u: bytes, more: bytes)
    requires NextKey(s, first) == Key(KeyText(e.key), u) && KeyFor(ByCode, keys, KeyText(e.key)) == Some(e.key)
    requires ReadMapValue(env, ByCode, kind, u, depth) == Ok(Known(e.v), more)
    ensures ReadEntries(env, ByCode, keys, kind, s, first, depth, m) ==
            if e.key in m then Err else ReadEntries(env, ByCode, keys, kind, more, false, depth, m[e.key := e.v])
  {
    hide NextKey, KeyFor, ReadMapValue, KeyText;
  }

  /** The next key is new exactly when the keys go on being distinct. */
  lemma DistinctNext(es: seq<MapEntry>, i: nat)
    requires i < |es| && KeysDistinct(es, i) && forall key :: key in MapOf(es, i) <==> exists j :: 0 <= j < i && es[j].key == key
    ensures es[i].key !in MapOf(es, i) ==> KeysDistinct(es, i + 1)
    ensures es[i].key in MapOf(es, i) ==> !KeysDistinct(es, |es|)
  {
    hide MapOf;
    if es[i].key in MapOf(es, i) {
      var j :| 0 <= j < i && es[j].key == es[i].key;
    }
  }

  lemma MapOfNext(es: seq<MapEntry>, i: nat)
    requires i < |es|
    ensures MapOf(es, i + 1) == MapOf(es, i)[es[i].key := es[i].v]
  {
  }

  lemma EntriesEnd(k: bytes, first: bool)
    ensures NextKey([RBRACE] + k, first) == EndObject(k)
  {
    SkipWsStop([RBRACE] + k);
    assert ([RBRACE] + k)[1..] == k;
  }

  /** Repeated keys are refused, distinct ones make up the map, in whatever order the entries come. */
  lemma MapTextReads(env: Env, keys: KeyKind, kind: Kind, es: seq<MapEntry>, k: bytes, depth: nat)
    requires SchemaOk(env.schema) && (kind.EnumKind? ==> EnumOk(kind.values)) && depth + 1 <= MAX_DEPTH
    requires forall j :: 0 <= j < |es| ==> EntryOk(env, keys, kind, depth + 1, es[j])
    ensures ReadMap(env, ByCode, keys, kind, [LBRACE] + EntriesTo(env.schema, kind, es, 0, k), depth) ==
            if KeysDistinct(es, |es|) then Ok(MapOf(es, |es|), k) else Err
  {
    var s := [LBRACE] + EntriesTo(env.schema, kind, es, 0, k);
    SkipWsStop(s);
    assert s[1..] == EntriesTo(env.schema, kind, es, 0, k);
    hide EntriesTo, ReadEntries;
    EntriesRead(env, keys, kind, es, 0, k, depth + 1);
  }

  lemma SortedDistinct(keys: seq<MapKey>)
    requires Ascending(KeyLess, keys)
    ensures Distinct(keys)
  {
    KeyIsOrder();
    forall i, j | 0 <= i < j < |keys| ensures keys[i] != keys[j] {
      assert KeyLess(keys[i], keys[j]);
    }
  }

  lemma {:induction false} MapOfEntries(m: map<MapKey, Value>, keys: seq<MapKey>, n: nat)
    requires n <= |keys| && forall key :: key in keys ==> key in m
    ensures forall key :: key in MapOf(EntriesOf(keys, m), n) <==> key in keys[..n]
    ensures forall key :: key in keys[..n] ==> MapOf(EntriesOf(keys, m), n)[key] == m[key]
  {
    if n > 0 {
      MapOfEntries(m, keys, n - 1);
      assert keys[..n] == keys[..n - 1] + [keys[n - 1]];
    }
  }

  /** ReadMap rebuilds exactly the map that WriteMap printed, however it was enumerated. */
  lemma MapReadsBack(env: Env, keys: KeyKind, kind: Kind, m: map<MapKey, Value>, order: seq<MapKey>, k: bytes, depth: nat)
    requires SchemaOk(env.schema) && (kind.EnumKind? ==> EnumOk(kind.values)) && depth + 1 <= MAX_DEPTH
    requires Distinct(order) && Elements(order) == m.Keys
    requires forall key :: key in m ==> EntryOk(env, keys, kind, depth + 1, MapEntry(key, m[key]))
    ensures ReadMap(env, ByCode, keys, kind, WriteMap(env.schema, kind, m, order, k), depth) == Ok(m, k)
  {
    hide EntryOk, SchemaOk, EnumOk, ReadMap, EntriesTo, Sort, MapOf, KeyLess;
    SortedIn(m, order);
    var sorted := Sort(KeyLess, order);
    var es := EntriesOf(sorted, m);
    MapTextReads(env, keys, kind, es, k, depth);
    SortedDistinct(sorted);
    MapOfEntries(m, sorted, |sorted|);
    assert sorted[..|sorted|] == sorted;
    SameMap(m, MapOf(es, |es|), sorted);
  }

  lemma SameMap(m: map<MapKey, Value>, n: map<MapKey, Value>, keys: seq<MapKey>)
    requires Elements(keys) == m.Keys
    requires forall key :: key in n <==> key in keys
    requires forall key :: key in keys ==> key in m && n[key] == m[key]
    ensures m == n
  {
    forall key ensures key in m <==> key in n {
      assert key in m <==> key in Elements(keys);
    }
  }
}
