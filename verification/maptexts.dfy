/**
 Which map texts are accepted, whatever their keys are spelled like, and which map they stand for.
 */
module MapTexts {
  import opened Bytes
  import opened Cursor
  import opened Json
  import opened Schema
  import opened Generated
  import opened Meanings
  import opened Exact
  import opened Maps
  import opened TableMeanings
  import Refine
  import Table

  /** The value a reader takes a JSON value for. */
  function ValueFor(env: Env, reader: Reader, kind: Kind, v: Tree, depth: nat): Option<Item>
    requires Valid(v)
  {
    if kind.MessageKind? && v == Lit(NULL) then None
    else if reader.ByTable? then ItemWith(env, kind, None, v, depth)
    else ItemOf(env, kind, v, depth)
  }

  /** The key and the value of one entry; a discarded enum name leaves the value unknown. */
  type Pair = (MapKey, Item)

  function PairOf(env: Env, reader: Reader, keys: KeyKind, kind: Kind, e: Entry, depth: nat): Option<Pair> {
    if !ValidEntry(e) then None
    else
      match (KeyFor(reader, keys, Meaning(e.head.key)), ValueFor(env, reader, kind, e.v, depth))
      case (Some(key), Some(item)) => Some((key, item))
      case _ => None
  }

  function PairsIn(env: Env, reader: Reader, keys: KeyKind, kind: Kind, es: seq<Entry>, depth: nat): (ps: seq<Option<Pair>>)
    ensures |ps| == |es| && forall i :: 0 <= i < |es| ==> ps[i] == PairOf(env, reader, keys, kind, es[i], depth)
  {
    seq(|es|, i requires 0 <= i < |es| => PairOf(env, reader, keys, kind, es[i], depth))
  }

  /** The map with one more entry, if its value is known. */
  function With(m: map<MapKey, Value>, key: MapKey, item: Item): map<MapKey, Value> {
    if item.Known? then m[key := item.v] else m
  }

  /** The map of the entries, added to `m` one by one. */
  function Fill(ps: seq<Option<Pair>>, m: map<MapKey, Value>): Option<map<MapKey, Value>> {
    if ps == [] then Some(m)
    else
      match ps[0]
      case None => None
      case Some((key, item)) => if key in m then None else Fill(ps[1..], With(m, key, item))
  }

  function Gather(env: Env, reader: Reader, keys: KeyKind, kind: Kind, es: seq<Entry>, depth: nat, m: map<MapKey, Value>): Option<map<MapKey, Value>> {
    Fill(PairsIn(env, reader, keys, kind, es, depth), m)
  }

  // ---------------------------------------------------------------- the loop gathers

  lemma ValueIs(env: Env, reader: Reader, kind: Kind, w: bytes, v: Tree, k: bytes, depth: nat)
    requires SchemaOk(env.schema) && AllWs(w) && Valid(v) && Ended(k)
    ensures ReadMapValue(env, reader, kind, w + TreeTo(v, k), depth) ==
            Lift(ValueFor(env, reader, kind, v, depth), k)
  {
    hide SchemaOk, TreeTo, Valid, ReadItem, ItemOf, ItemWith, Table.IntoItem, ReadNull, ReadBool;
    LiteralIs(w, v, k);
    ItemIs(env, kind, w, v, k, depth);
    ItemWithIs(env, kind, None, w, v, k, depth);
    Refine.ItemAgrees(env, kind, w + TreeTo(v, k), depth);
  }

  /** The loop behind the value of an entry. */
  function AfterValue(env: Env, reader: Reader, keys: KeyKind, kind: Kind, key: MapKey, r: Read<Item>, depth: nat, m: map<MapKey, Value>): Read<map<MapKey, Value>> {
    match r
    case Err => Err
    case Ok(item, rest) => ReadEntries(env, reader, keys, kind, rest, false, depth, With(m, key, item))
  }

  /** One turn of the loop. */
  lemma EntryTurn(env: Env, reader: Reader, keys: KeyKind, kind: Kind, s: bytes, first: bool, text: bytes, u: bytes, depth: nat, m: map<MapKey, Value>)
    requires NextKey(s, first) == Key(text, u)
    ensures var key := KeyFor(reader, keys, text);
            ReadEntries(env, reader, keys, kind, s, first, depth, m) ==
            if key.None? || key.value in m then Err else AfterValue(env, reader, keys, kind, key.value, ReadMapValue(env, reader, kind, u, depth), depth, m)
  {
    hide NextKey, KeyFor, ReadMapValue;
  }

  lemma EntryHeadIs(env: Env, reader: Reader, keys: KeyKind, kind: Kind, w: bytes, first: bool, ms: Members, close: bytes, depth: nat, m: map<MapKey, Value>)
    requires SchemaOk(env.schema) && AllWs(w) && ValidMembers(ms) && Valid(ms.v) && Ended(close)
    ensures var more := if ms.MoreMembers? then MoreTo(false, ms.tail, close) else close;
            var key := KeyFor(reader, keys, Meaning(ms.head.key));
            ReadEntries(env, reader, keys, kind, w + MoreTo(first, ms, close), first, depth, m) ==
            if key.None? || key.value in m then Err
            else AfterValue(env, reader, keys, kind, key.value,
                            Lift(ValueFor(env, reader, kind, ms.v, depth), ms.post + more), depth, m)
  {
    var more := if ms.MoreMembers? then MoreTo(false, ms.tail, close) else close;
    assert AllWs(ms.pre) && AllWs(ms.post);
    EndedTail(ms.post, more);
    hide SchemaOk, TreeTo, MembersTo, MoreTo, Valid, ValidMembers, NextKey, KeyFor, ReadMapValue, ReadEntries, AfterValue, ValueFor, Ended, AllWs;
    KeyIs(w, first, ms, close);
    EntryTurn(env, reader, keys, kind, w + MoreTo(first, ms, close), first, Meaning(ms.head.key), ms.pre + TreeTo(ms.v, ms.post + more), depth, m);
    ValueIs(env, reader, kind, ms.pre, ms.v, ms.post + more, depth);
  }

  lemma FirstEntry(es: seq<Entry>)
    requires es != [] && ValidEntries(es)
    ensures var ms := MembersFrom(es);
            && ValidMembers(ms) && Valid(ms.v) && AllWs(es[0].post) && ValidEntry(es[0])
            && ms.head == es[0].head && ms.v == es[0].v && ms.post == es[0].post
            && (ms.MoreMembers? <==> |es| > 1) && (ms.MoreMembers? ==> ms.tail == MembersFrom(es[1..]) && ValidEntries(es[1..]))
  {
    hide *;
    FromValid(es);
    FromUnfolds(es);
    TailEntries(es);
    EntryHolds(es[0]);
  }

  lemma FromUnfolds(es: seq<Entry>)
    requires es != []
    ensures var ms := MembersFrom(es);
            && ms.head == es[0].head && ms.v == es[0].v && ms.post == es[0].post
            && (ms.MoreMembers? <==> |es| > 1) && (ms.MoreMembers? ==> ms.tail == MembersFrom(es[1..]))
  {
  }

  lemma TailEntries(es: seq<Entry>)
    requires es != [] && ValidEntries(es)
    ensures ValidEntry(es[0]) && ValidEntries(es[1..])
  {
    hide ValidEntry;
  }

  lemma EntryHolds(e: Entry)
    requires ValidEntry(e)
    ensures Valid(e.v) && AllWs(e.post)
  {
    hide Valid, AllWs, ValidChars;
  }

  lemma GatherTurn(env: Env, reader: Reader, keys: KeyKind, kind: Kind, es: seq<Entry>, rest: bytes, depth: nat, m: map<MapKey, Value>)
    requires es != [] && ValidEntry(es[0]) && Valid(es[0].v) && ValidChars(es[0].head.key)
    ensures var key := KeyFor(reader, keys, Meaning(es[0].head.key));
            var item := ValueFor(env, reader, kind, es[0].v, depth);
            if key.None? || key.value in m || item.None? then
              && Gather(env, reader, keys, kind, es, depth, m) == None
              && (key.Some? ==> AfterValue(env, reader, keys, kind, key.value, Lift(item, rest), depth, m) == Err || key.value in m)
            else
              && Gather(env, reader, keys, kind, es, depth, m) == Gather(env, reader, keys, kind, es[1..], depth, With(m, key.value, item.value))
              && AfterValue(env, reader, keys, kind, key.value, Lift(item, rest), depth, m) ==
                 ReadEntries(env, reader, keys, kind, rest, false, depth, With(m, key.value, item.value))
  {
    hide KeyFor, Meaning, ValueFor, ReadEntries, ValidEntry, Valid;
    assert PairsIn(env, reader, keys, kind, es, depth)[1..] == PairsIn(env, reader, keys, kind, es[1..], depth);
  }

  /** The loop behind one entry. */
  lemma {:induction false} EntriesAfter(env: Env, reader: Reader, keys: KeyKind, kind: Kind, es: seq<Entry>, k: bytes, depth: nat, m: map<MapKey, Value>)
    requires SchemaOk(env.schema) && es != [] && ValidEntries(es)
    ensures var more := if |es| > 1 then MoreTo(false, MembersFrom(es[1..]), [RBRACE] + k) else [RBRACE] + k;
            ReadEntries(env, reader, keys, kind, es[0].post + more, false, depth, m) == Lift(Gather(env, reader, keys, kind, es[1..], depth, m), k)
    decreases |es|, 0
  {
    assert ValidEntry(es[0]);
    if |es| > 1 {
      hide *;
      FirstEntry(es);
      EntriesAre(env, reader, keys, kind, es[0].post, false, es[1..], k, depth, m);
    } else {
      CloseIs(es[0].post, k, false);
      hide NextKey;
    }
  }

  /** The loop gathers the entries, however they are spelled. */
  lemma {:induction false} EntriesAre(env: Env, reader: Reader, keys: KeyKind, kind: Kind, w: bytes, first: bool, es: seq<Entry>, k: bytes, depth: nat,
                                      m: map<MapKey, Value>)
    requires SchemaOk(env.schema) && AllWs(w) && es != [] && ValidEntries(es)
    ensures ReadEntries(env, reader, keys, kind, w + MoreTo(first, MembersFrom(es), [RBRACE] + k), first, depth, m) ==
            Lift(Gather(env, reader, keys, kind, es, depth, m), k)
    decreases |es|, 1
  {
    hide *;
    var ms := MembersFrom(es);
    var close := [RBRACE] + k;
    FirstEntry(es);
    EndedClose(k);
    KeyValid(es[0]);
    EntryHeadIs(env, reader, keys, kind, w, first, ms, close, depth, m);
    var more := if ms.MoreMembers? then MoreTo(false, ms.tail, close) else close;
    GatherTurn(env, reader, keys, kind, es, ms.post + more, depth, m);
    LiftCases<map<MapKey, Value>>(None, k);
    var key := KeyFor(reader, keys, Meaning(es[0].head.key));
    var item := ValueFor(env, reader, kind, es[0].v, depth);
    if key.Some? && key.value !in m && item.Some? {
      EntriesAfter(env, reader, keys, kind, es, k, depth, With(m, key.value, item.value));
    }
  }

  lemma EndedClose(k: bytes)
    ensures Ended([RBRACE] + k)
  {
  }

  lemma KeyValid(e: Entry)
    requires ValidEntry(e)
    ensures ValidChars(e.head.key)
  {
  }

  /** ReadMap gathers the entries of an object. */
  lemma ReadMapIs(env: Env, reader: Reader, keys: KeyKind, kind: Kind, w: bytes, es: seq<Entry>, k: bytes, depth: nat)
    requires SchemaOk(env.schema) && AllWs(w) && ValidEntries(es)
    ensures ReadMap(env, reader, keys, kind, ObjectText(w, es, k), depth) ==
            Lift(if depth + 1 > MAX_DEPTH then None else Gather(env, reader, keys, kind, es, depth + 1, map[]), k)
  {
    hide *;
    OpenObject(w, es, k, depth);
    LiftCases<map<MapKey, Value>>(None, k);
    MapBegins(env, reader, keys, kind, ObjectText(w, es, k), depth);
    NoSpace();
    if depth + 1 <= MAX_DEPTH {
      if es == [] {
        NoEntries(env, reader, keys, kind, [RBRACE] + k, k, depth + 1);
      } else {
        EntriesAre(env, reader, keys, kind, [], true, es, k, depth + 1, map[]);
      }
    }
  }

  lemma MapBegins(env: Env, reader: Reader, keys: KeyKind, kind: Kind, s: bytes, depth: nat)
    ensures ReadMap(env, reader, keys, kind, s, depth) ==
            var b := Begin(s, LBRACE, depth); if b.None? then Err else ReadEntries(env, reader, keys, kind, b.value, true, depth + 1, map[])
  {
  }

  /** Behind the brace stand the members. */
  lemma OpenObject(w: bytes, es: seq<Entry>, k: bytes, depth: nat)
    requires AllWs(w) && ValidEntries(es)
    ensures Begin(ObjectText(w, es, k), LBRACE, depth) ==
            if depth + 1 > MAX_DEPTH then None
            else if es == [] then Some([RBRACE] + k) else Some([] + MoreTo(true, MembersFrom(es), [RBRACE] + k))
  {
    var v := ObjectOf(es);
    var u := TreeTo(v, k);
    ObjectValid(es);
    TreeStarts(w, v, k);
    BeginIs(w, u, LBRACE, depth);
    hide MembersFrom, MembersTo, Begin;
    if es == [] {
      assert u[1..] == [] + ([RBRACE] + k) == [RBRACE] + k;
    } else {
      assert u[1..] == [] + MoreTo(true, v.members, [RBRACE] + k);
    }
  }

  lemma NoEntries(env: Env, reader: Reader, keys: KeyKind, kind: Kind, s: bytes, k: bytes, depth: nat)
    requires s == [RBRACE] + k
    ensures ReadEntries(env, reader, keys, kind, s, true, depth, map[]) == Lift(Gather(env, reader, keys, kind, [], depth, map[]), k)
  {
    EntriesEnd(k, true);
  }

  // ---------------------------------------------------------------- acceptance

  predicate AllPairs(ps: seq<Option<Pair>>) {
    forall i :: 0 <= i < |ps| ==> ps[i].Some?
  }

  /** The entry is stored: its value is known. */
  predicate Stores(p: Option<Pair>) {
    p.Some? && p.value.1.Known?
  }

  predicate SameKey(p: Option<Pair>, q: Option<Pair>) {
    p.Some? && q.Some? && p.value.0 == q.value.0
  }

  /** No entry has the key of an earlier one that is stored. */
  predicate NoRepeats(ps: seq<Option<Pair>>) {
    forall i, j :: 0 <= i < j < |ps| && Stores(ps[i]) ==> !SameKey(ps[i], ps[j])
  }

  /** `r` is `m` with the entries that are stored, and nothing else. */
  ghost predicate Holds(ps: seq<Option<Pair>>, m: map<MapKey, Value>, r: map<MapKey, Value>) {
    && (forall key :: key in m ==> key in r && r[key] == m[key])
    && (forall i :: 0 <= i < |ps| && Stores(ps[i]) ==> ps[i].value.0 in r && r[ps[i].value.0] == ps[i].value.1.v)
    && (forall key :: key in r && key !in m ==> exists i :: 0 <= i < |ps| && Stores(ps[i]) && ps[i].value.0 == key)
  }

  predicate NoneHeld(ps: seq<Option<Pair>>, m: map<MapKey, Value>) {
    forall i :: 0 <= i < |ps| && ps[i].Some? ==> ps[i].value.0 !in m
  }

  lemma {:induction false} FillExact(ps: seq<Option<Pair>>, m: map<MapKey, Value>)
    ensures var r := Fill(ps, m);
            && (r.Some? <==> AllPairs(ps) && NoneHeld(ps, m) && NoRepeats(ps))
            && (r.Some? ==> Holds(ps, m, r.value))
  {
    if ps != [] && ps[0].Some? {
      var (key, item) := ps[0].value;
      FillExact(ps[1..], With(m, key, item));
      hide NoneHeld, NoRepeats, Holds, With, AllPairs;
      HeldHead(ps, m);
      if key !in m && Fill(ps[1..], With(m, key, item)).Some? {
        HoldsHead(ps, m, Fill(ps[1..], With(m, key, item)).value);
      }
    }
  }

  lemma HeldHead(ps: seq<Option<Pair>>, m: map<MapKey, Value>)
    requires ps != [] && ps[0].Some?
    ensures var (key, item) := ps[0].value;
            && (AllPairs(ps) <==> AllPairs(ps[1..]))
            && (NoneHeld(ps, m) ==> key !in m)
            && (key !in m ==>
                  (NoneHeld(ps, m) && NoRepeats(ps) <==> NoneHeld(ps[1..], With(m, key, item)) && NoRepeats(ps[1..])))
  {
    var (key, item) := ps[0].value;
    assert forall i :: 1 <= i < |ps| ==> ps[1..][i - 1] == ps[i];
    if NoneHeld(ps, m) && NoRepeats(ps) {
      forall i | 0 <= i < |ps| - 1 && ps[1..][i].Some? ensures ps[1..][i].value.0 !in With(m, key, item) {
        assert ps[1..][i] == ps[i + 1];
        assert Stores(ps[0]) ==> !SameKey(ps[0], ps[i + 1]);
      }
    }
    if key !in m && NoneHeld(ps[1..], With(m, key, item)) && NoRepeats(ps[1..]) {
      forall i | 1 <= i < |ps| && ps[i].Some? ensures ps[i].value.0 !in m && (Stores(ps[0]) ==> !SameKey(ps[0], ps[i])) {
        assert ps[1..][i - 1].value.0 !in With(m, key, item);
      }
      forall i, j | 1 <= i < j < |ps| && Stores(ps[i]) ensures !SameKey(ps[i], ps[j]) {
        assert !SameKey(ps[1..][i - 1], ps[1..][j - 1]);
      }
    }
  }

  lemma HoldsHead(ps: seq<Option<Pair>>, m: map<MapKey, Value>, r: map<MapKey, Value>)
    requires ps != [] && ps[0].Some? && ps[0].value.0 !in m && Holds(ps[1..], With(m, ps[0].value.0, ps[0].value.1), r)
    ensures Holds(ps, m, r)
  {
    assert forall i :: 1 <= i < |ps| ==> ps[1..][i - 1] == ps[i];
    forall i | 0 <= i < |ps| && Stores(ps[i]) ensures ps[i].value.0 in r && r[ps[i].value.0] == ps[i].value.1.v {
      if i > 0 {
        assert Stores(ps[1..][i - 1]);
      }
    }
    forall key | key in r && key !in m ensures exists i :: 0 <= i < |ps| && Stores(ps[i]) && ps[i].value.0 == key {
      if key in With(m, ps[0].value.0, ps[0].value.1) {
        assert Stores(ps[0]) && ps[0].value.0 == key;
      } else {
        var i :| 0 <= i < |ps[1..]| && Stores(ps[1..][i]) && ps[1..][i].value.0 == key;
        assert Stores(ps[i + 1]) && ps[i + 1].value.0 == key;
      }
    }
  }

  /**
   A map reader accepts an object if and only if it nests within the limit, every key parses, every value
   decodes, and no key, however it is spelled, is that of an earlier entry that is stored; and then the
   map holds exactly the entries that are stored.
   */
  lemma ReadMapExact(env: Env, reader: Reader, keys: KeyKind, kind: Kind, w: bytes, es: seq<Entry>, k: bytes, depth: nat)
    requires SchemaOk(env.schema) && AllWs(w) && ValidEntries(es)
    ensures var r := ReadMap(env, reader, keys, kind, ObjectText(w, es, k), depth);
            var ps := PairsIn(env, reader, keys, kind, es, depth + 1);
            && (r.Ok? <==> depth + 1 <= MAX_DEPTH && AllPairs(ps) && NoRepeats(ps))
            && (r.Ok? ==> r.rest == k && Holds(ps, map[], r.value))
  {
    hide SchemaOk, ReadMap, ObjectText, Fill, AllPairs, PairsIn, NoRepeats, Holds, PairOf;
    ReadMapIs(env, reader, keys, kind, w, es, k, depth);
    FillExact(PairsIn(env, reader, keys, kind, es, depth + 1), map[]);
  }

  /** Where nothing is discarded every entry is stored, so acceptance means that the keys are pairwise distinct. */
  lemma DistinctKeys(env: Env, reader: Reader, keys: KeyKind, kind: Kind, es: seq<Entry>, depth: nat)
    requires !env.discard && AllPairs(PairsIn(env, reader, keys, kind, es, depth))
    ensures var ps := PairsIn(env, reader, keys, kind, es, depth);
            NoRepeats(ps) <==> forall i, j :: 0 <= i < j < |ps| ==> !SameKey(ps[i], ps[j])
  {
    hide PairOf;
    forall i | 0 <= i < |es| ensures Stores(PairsIn(env, reader, keys, kind, es, depth)[i]) {
      KnownValue(env, reader, keys, kind, es[i], depth);
    }
  }

  lemma KnownValue(env: Env, reader: Reader, keys: KeyKind, kind: Kind, e: Entry, depth: nat)
    requires !env.discard && PairOf(env, reader, keys, kind, e, depth).Some?
    ensures Stores(PairOf(env, reader, keys, kind, e, depth))
  {
    hide MessageOf, ObjectWith, SignedOf, UnsignedOf, KeyFor, ValidEntry, Meaning;
  }
}
