/**
 The two readers of maps, in generated code and in the table decoder: the table takes fewer spellings
 of boolean keys, and its messages can show discarded enum names.
 */
module MapReaders {
  import opened Bytes
  import opened Cursor
  import opened Json
  import opened Schema
  import opened Generated
  import opened Meanings
  import opened Exact
  import opened Maps
  import opened MapTexts
  import opened TableMeanings
  import opened Traces
  import Refine
  import Table

  /** A boolean key is spelled as it is printed. */
  predicate PlainKey(keys: KeyKind, e: Entry) {
    keys.BoolKeys? && ValidEntry(e) ==> Meaning(e.head.key) == TRUE || Meaning(e.head.key) == FALSE
  }

  predicate PlainKeys(keys: KeyKind, es: seq<Entry>) {
    forall i :: 0 <= i < |es| ==> PlainKey(keys, es[i])
  }

  /** A message does not show a discarded enum name. */
  predicate QuietValue(schema: Schema, kind: Kind, e: Entry) {
    kind.MessageKind? && ValidEntry(e) ==> QuietObject(schema, kind.message, Fresh(schema(kind.message)), e.v)
  }

  predicate QuietValues(schema: Schema, kind: Kind, es: seq<Entry>) {
    forall i :: 0 <= i < |es| ==> QuietValue(schema, kind, es[i])
  }

  // ---------------------------------------------------------------- one entry

  lemma KeysCompare(keys: KeyKind, text: bytes)
    ensures var p, q := KeyFor(ByCode, keys, text), KeyFor(ByTable, keys, text);
            && (q.Some? ==> p == q)
            && (p.Some? ==> (q.Some? <==> (keys.BoolKeys? ==> text == TRUE || text == FALSE)))
  {
    assert TRUTHS[4] == TRUE && FALSEHOODS[4] == FALSE;
    assert forall t :: t in TRUTHS ==> |t| < 5;
  }

  /** Both readers on one entry. */
  lemma PairsCompare(env: Env, keys: KeyKind, kind: Kind, e: Entry, depth: nat)
    requires SchemaOk(env.schema) && ValidEntry(e)
    ensures var p, q := PairOf(env, ByCode, keys, kind, e, depth), PairOf(env, ByTable, keys, kind, e, depth);
            && (q.Some? ==> p.Some? && SameKey(p, q) && Stores(p) == Stores(q))
            && (p.Some? ==> (q.Some? <==> PlainKey(keys, e)))
            && (q.Some? ==> (p == q <==> QuietValue(env.schema, kind, e)))
  {
    hide SchemaOk, KeyFor, ItemOf, ItemWith, Meaning, QuietObject, Valid, Fresh, InnerStart;
    KeysCompare(keys, Meaning(e.head.key));
    ItemExact(env, kind, None, e.v, depth);
    if kind.MessageKind? {
      NoneStartsFresh(env.schema(kind.message));
    }
  }

  lemma NoneStartsFresh(mt: MessageType)
    ensures InnerStart(mt, None) == Fresh(mt)
  {
  }

  // ---------------------------------------------------------------- all entries

  /** The table's pairs come out of the same entries as those of generated code. */
  predicate Aligned(ps: seq<Option<Pair>>, qs: seq<Option<Pair>>) {
    |ps| == |qs| && forall i :: 0 <= i < |ps| && qs[i].Some? ==> SameKey(ps[i], qs[i]) && Stores(ps[i]) == Stores(qs[i])
  }

  lemma AlignedRepeats(ps: seq<Option<Pair>>, qs: seq<Option<Pair>>)
    requires Aligned(ps, qs) && AllPairs(qs)
    ensures AllPairs(ps) && (NoRepeats(ps) <==> NoRepeats(qs))
  {
    forall i | 0 <= i < |ps| ensures ps[i].Some? && SameKey(ps[i], qs[i]) && Stores(ps[i]) == Stores(qs[i]) {
      assert qs[i].Some?;
    }
  }

  /** The maps are equal exactly when all pairs are. */
  lemma MapsCompare(ps: seq<Option<Pair>>, qs: seq<Option<Pair>>, r: map<MapKey, Value>, r': map<MapKey, Value>)
    requires Aligned(ps, qs) && AllPairs(ps) && AllPairs(qs) && Fill(ps, map[]) == Some(r) && Fill(qs, map[]) == Some(r')
    ensures r == r' <==> ps == qs
  {
    FillExact(ps, map[]);
    FillExact(qs, map[]);
    if r == r' {
      forall i | 0 <= i < |ps| ensures ps[i] == qs[i] {
        assert ps[i].Some? && qs[i].Some? && SameKey(ps[i], qs[i]);
        assert Stores(ps[i]) == Stores(qs[i]);
        if Stores(ps[i]) {
          assert r[ps[i].value.0] == ps[i].value.1.v && r'[qs[i].value.0] == qs[i].value.1.v;
        }
      }
    }
  }

  /**
   On a JSON object the two readers come to the same exactly when generated code refuses it, or every
   boolean key is spelled as it is printed and no message shows a discarded name.
   */
  lemma EntriesAgree(env: Env, keys: KeyKind, kind: Kind, w: bytes, es: seq<Entry>, k: bytes, depth: nat)
    requires SchemaOk(env.schema) && AllWs(w) && ValidEntries(es)
    ensures var s := ObjectText(w, es, k);
            var r, r' := ReadMap(env, ByCode, keys, kind, s, depth), ReadMap(env, ByTable, keys, kind, s, depth);
            && (r'.Ok? ==> r.Ok? && r.rest == r'.rest)
            && (r == r' <==> r.Err? || (PlainKeys(keys, es) && QuietValues(env.schema, kind, es)))
  {
    hide *;
    ReadMapIs(env, ByCode, keys, kind, w, es, k, depth);
    ReadMapIs(env, ByTable, keys, kind, w, es, k, depth);
    LiftCases<map<MapKey, Value>>(None, k);
    if depth + 1 <= MAX_DEPTH {
      var m, m' := Gather(env, ByCode, keys, kind, es, depth + 1, map[]), Gather(env, ByTable, keys, kind, es, depth + 1, map[]);
      GathersAgree(env, keys, kind, es, depth + 1);
      LiftCases(m, k);
      LiftCases(m', k);
    }
  }

  lemma GathersAgree(env: Env, keys: KeyKind, kind: Kind, es: seq<Entry>, depth: nat)
    requires SchemaOk(env.schema) && ValidEntries(es)
    ensures var m, m' := Gather(env, ByCode, keys, kind, es, depth, map[]), Gather(env, ByTable, keys, kind, es, depth, map[]);
            && (m'.Some? ==> m.Some?)
            && (m == m' <==> m.None? || (PlainKeys(keys, es) && QuietValues(env.schema, kind, es)))
  {
    hide SchemaOk, Fill, PairsIn, ValidEntries, PlainKeys, QuietValues, AllPairs, NoRepeats, Holds, Aligned, NoneHeld;
    var ps, qs := PairsIn(env, ByCode, keys, kind, es, depth), PairsIn(env, ByTable, keys, kind, es, depth);
    PairsAligned(env, keys, kind, es, depth);
    FillExact(ps, map[]);
    FillExact(qs, map[]);
    NothingIn(ps);
    NothingIn(qs);
    if AllPairs(qs) {
      AlignedRepeats(ps, qs);
    }
    if Fill(ps, map[]).Some? && Fill(qs, map[]).Some? {
      MapsCompare(ps, qs, Fill(ps, map[]).value, Fill(qs, map[]).value);
    }
  }

  lemma NothingIn(ps: seq<Option<Pair>>)
    ensures NoneHeld(ps, map[])
  {
  }

  lemma PairsAligned(env: Env, keys: KeyKind, kind: Kind, es: seq<Entry>, depth: nat)
    requires SchemaOk(env.schema) && ValidEntries(es)
    ensures var ps, qs := PairsIn(env, ByCode, keys, kind, es, depth), PairsIn(env, ByTable, keys, kind, es, depth);
            && Aligned(ps, qs)
            && (AllPairs(ps) ==> (AllPairs(qs) <==> PlainKeys(keys, es)))
            && (AllPairs(qs) ==> (ps == qs <==> QuietValues(env.schema, kind, es)))
  {
    hide SchemaOk, PairOf, ValidEntry, PlainKey, QuietValue, SameKey, Stores;
    var ps, qs := PairsIn(env, ByCode, keys, kind, es, depth), PairsIn(env, ByTable, keys, kind, es, depth);
    forall i | 0 <= i < |es|
      ensures qs[i].Some? ==> ps[i].Some? && SameKey(ps[i], qs[i]) && Stores(ps[i]) == Stores(qs[i])
      ensures ps[i].Some? ==> (qs[i].Some? <==> PlainKey(keys, es[i]))
      ensures qs[i].Some? ==> (ps[i] == qs[i] <==> QuietValue(env.schema, kind, es[i]))
    {
      assert ValidEntry(es[i]);
      PairsCompare(env, keys, kind, es[i], depth);
    }
  }

  // ---------------------------------------------------------------- all inputs

  lemma MapValueSkips(env: Env, reader: Reader, kind: Kind, s: bytes, depth: nat)
    requires SchemaOk(env.schema)
    requires ReadMapValue(env, reader, kind, s, depth).Ok? && Ended(ReadMapValue(env, reader, kind, s, depth).rest)
    ensures SkipValue(s, depth) == Some(ReadMapValue(env, reader, kind, s, depth).rest)
  {
    hide SchemaOk, SkipValue, ReadItem, Table.IntoItem, ReadNull;
    Refine.ItemAgrees(env, kind, s, depth);
    Table.ItemEnds(env, kind, None, s, depth);
    ItemSkips(env, kind, s, depth);
  }

  lemma {:induction false} EntriesSkip(env: Env, reader: Reader, keys: KeyKind, kind: Kind, s: bytes, first: bool, depth: nat, m: map<MapKey, Value>)
    requires SchemaOk(env.schema) && ReadEntries(env, reader, keys, kind, s, first, depth, m).Ok?
    ensures SkipMembers(s, first, depth) == Some(ReadEntries(env, reader, keys, kind, s, first, depth, m).rest)
    decreases |s|
  {
    hide SchemaOk, SkipValue, ReadMapValue, KeyFor;
    match NextKey(s, first)
    case NoKey =>
    case EndObject(_) =>
    case Key(text, u) =>
      var key := KeyFor(reader, keys, text).value;
      var r := ReadMapValue(env, reader, kind, u, depth);
      KeyEnds(r.rest, false);
      MapValueSkips(env, reader, kind, u, depth);
      EntriesSkip(env, reader, keys, kind, r.rest, false, depth, With(m, key, r.value));
  }

  /** Every map a reader accepts is a JSON object, taken as a whole. */
  lemma MapSkips(env: Env, reader: Reader, keys: KeyKind, kind: Kind, s: bytes, depth: nat)
    requires SchemaOk(env.schema) && ReadMap(env, reader, keys, kind, s, depth).Ok?
    ensures SkipValue(s, depth) == Some(ReadMap(env, reader, keys, kind, s, depth).rest)
    ensures At(SkipWs(s), LBRACE)
  {
    hide SchemaOk, SkipValue, ReadEntries, SkipMembers, SkipElems;
    OpenSkips(s, depth);
    EntriesSkip(env, reader, keys, kind, Begin(s, LBRACE, depth).value, true, depth + 1, map[]);
  }

  /** `s` is a JSON object followed by `rest` with plain keys and quiet values. */
  ghost predicate Common(schema: Schema, keys: KeyKind, kind: Kind, s: bytes, rest: bytes) {
    exists w, v :: AllWs(w) && Valid(v) && s == w + TreeTo(v, rest) && CommonTree(schema, keys, kind, v)
  }

  predicate CommonTree(schema: Schema, keys: KeyKind, kind: Kind, v: Tree) {
    v.Obj? ==> PlainKeys(keys, Exact.EntriesOf(v.members)) && QuietValues(schema, kind, Exact.EntriesOf(v.members))
  }

  /** Both readers on the text of a JSON value. */
  lemma TreeAgrees(env: Env, keys: KeyKind, kind: Kind, w: bytes, v: Tree, k: bytes, depth: nat)
    requires SchemaOk(env.schema) && AllWs(w) && Valid(v)
    ensures var s := w + TreeTo(v, k);
            var r, r' := ReadMap(env, ByCode, keys, kind, s, depth), ReadMap(env, ByTable, keys, kind, s, depth);
            && (r'.Ok? ==> r.Ok? && r.rest == r'.rest)
            && (r == r' <==> r.Err? || CommonTree(env.schema, keys, kind, v))
  {
    if v.Obj? {
      var es := Exact.EntriesOf(v.members);
      EntriesValid(v.members);
      assert ObjectOf(es) == v;
      hide *;
      EntriesAgree(env, keys, kind, w, es, k, depth);
      CommonCases(env.schema, keys, kind, v);
      ObjectTextIs(w, es, k);
    } else {
      EmptyAgrees(env, keys, kind, w, v, k, depth);
    }
  }

  lemma CommonCases(schema: Schema, keys: KeyKind, kind: Kind, v: Tree)
    requires v.Obj?
    ensures CommonTree(schema, keys, kind, v) <==> PlainKeys(keys, Exact.EntriesOf(v.members)) && QuietValues(schema, kind, Exact.EntriesOf(v.members))
  {
  }

  lemma ObjectTextIs(w: bytes, es: seq<Entry>, k: bytes)
    ensures ObjectText(w, es, k) == w + TreeTo(ObjectOf(es), k)
  {
  }

  /** What is not an object with members: both readers refuse it or find nothing in it. */
  lemma EmptyAgrees(env: Env, keys: KeyKind, kind: Kind, w: bytes, v: Tree, k: bytes, depth: nat)
    requires AllWs(w) && Valid(v) && !v.Obj?
    ensures ReadMap(env, ByCode, keys, kind, w + TreeTo(v, k), depth) == ReadMap(env, ByTable, keys, kind, w + TreeTo(v, k), depth)
  {
    hide *;
    ObjectOpens(w, v, k, depth);
    MapBegins(env, ByCode, keys, kind, w + TreeTo(v, k), depth);
    MapBegins(env, ByTable, keys, kind, w + TreeTo(v, k), depth);
    if v.EmptyObj? {
      EmptySpace(v);
      ClosesAtOnce(env, ByCode, keys, kind, v.ws, k, depth + 1);
      ClosesAtOnce(env, ByTable, keys, kind, v.ws, k, depth + 1);
    }
  }

  lemma ClosesAtOnce(env: Env, reader: Reader, keys: KeyKind, kind: Kind, ws: bytes, k: bytes, depth: nat)
    requires AllWs(ws)
    ensures ReadEntries(env, reader, keys, kind, ws + ([RBRACE] + k), true, depth, map[]) == Ok(map[], k)
  {
    CloseIs(ws, k, true);
    hide NextKey;
  }

  /**
   On every input the table decoder's map reader accepts only what the one in generated code accepts, and
   the two come to the same exactly when the latter refuses, or every boolean key is spelled as it is
   printed and no message among the values shows a discarded name.
   */
  lemma ReadersAgree(env: Env, keys: KeyKind, kind: Kind, s: bytes, depth: nat)
    requires SchemaOk(env.schema)
    ensures var r, r' := ReadMap(env, ByCode, keys, kind, s, depth), ReadMap(env, ByTable, keys, kind, s, depth);
            && (r'.Ok? ==> r.Ok? && r.rest == r'.rest)
            && (r == r' <==> r.Err? || Common(env.schema, keys, kind, s, r.rest))
  {
    hide SchemaOk, ReadMap, SkipValue, SkipWs, TreeTo, Valid, AllWs, CommonTree, FitsDepth;
    var r, r' := ReadMap(env, ByCode, keys, kind, s, depth), ReadMap(env, ByTable, keys, kind, s, depth);
    if r.Ok? || r'.Ok? {
      var rest := if r.Ok? then r.rest else r'.rest;
      MapSkips(env, if r.Ok? then ByCode else ByTable, keys, kind, s, depth);
      var w, v := SkipSound(s, depth);
      TreeAgrees(env, keys, kind, w, v, rest, depth);
      if Common(env.schema, keys, kind, s, rest) {
        var x, u :| AllWs(x) && Valid(u) && s == x + TreeTo(u, rest) && CommonTree(env.schema, keys, kind, u);
        TreeAgrees(env, keys, kind, x, u, rest, depth);
      }
    }
  }
}
