/**
 Round trip of whole messages: the ordered decoder, run on what the encoder prints, ends at the
 closing brace with the message that was printed, and never gives up on the way.
 */
module RoundTrip {
  import opened Bytes
  import opened Text
  import opened Numbers
  import opened Cursor
  import opened Schema
  import opened Order
  import opened Generated
  import opened Encode
  import Refine

  // ---------------------------------------------------------------- heads of printed texts

  /** A text that a value reader takes up at once and that is not null. */
  predicate StartsValue(s: bytes) {
    s != [] && !IsWs(s[0]) && s[0] != NULL[0] && s[0] != RBRACKET && s[0] != RBRACE && s[0] != COMMA
  }

  lemma StartsValueFacts(s: bytes)
    requires StartsValue(s)
    ensures SkipWs(s) == s && ReadNull(s).None? && NextElem(s, true) == Element(s)
  {
    SkipWsStop(s);
  }

  lemma ScalarStarts(env: Env, kind: Kind, v: Value, k: bytes)
    requires !kind.MessageKind? && ValueOk(env.schema, kind, v)
    ensures StartsValue(ValueTo(env.schema, kind, v, k))
  {
    if v.Num? {
      DecimalHead(v.n, k);
      assert QuotedDecimal(v.n)[0] == QUOTE;
    }
  }

  lemma ValueStarts(env: Env, kind: Kind, v: Value, k: bytes)
    requires ValueOk(env.schema, kind, v)
    ensures StartsValue(ValueTo(env.schema, kind, v, k))
  {
    if !kind.MessageKind? {
      ScalarStarts(env, kind, v, k);
    }
  }

  // ---------------------------------------------------------------- scalars and maps

  lemma EnumReads(env: Env, values: seq<EnumValue>, n: int, k: bytes)
    requires EnumOk(values) && IsInt32(n) && Bytes.Ended(k)
    ensures ReadEnum(env, values, EnumTo(values, n, k)) == Ok(Known(Num(n)), k)
  {
    match FindNumber(values, n)
    case Some(name) =>
      EnumRoundTrip(values, n);
      QuoteReadsBack(name, k);
      SkipWsStop(Quote(name) + k);
    case None =>
      Int64ReadsBack(env.floats, n, k);
      DecimalHead(n, k);
      SkipWsStop(Decimal(n) + k);
  }

  lemma BoolReads(b: bool, k: bytes)
    ensures ReadBool(BoolText(b) + k) == Ok(b, k)
  {
    SkipWsStop(BoolText(b) + k);
    StartsWithAppend(BoolText(b), k);
    assert !b ==> (BoolText(b) + k)[..4][0] != TRUE[0];
  }

  lemma ScalarReads(env: Env, kind: Kind, v: Value, k: bytes)
    requires !kind.MessageKind? && ValueOk(env.schema, kind, v) && (kind.EnumKind? ==> EnumOk(kind.values))
    requires Bytes.Ended(k)
    ensures ReadScalar(env, kind, ValueTo(env.schema, kind, v, k)) == Ok(Known(v), k)
  {
    match kind
    case StringKind => QuoteReadsBack(v.s, k);
    case BoolKind => BoolReads(v.b, k);
    case Int32Kind => Int64ReadsBack(env.floats, v.n, k);
    case Int64Kind => QuotedInt64ReadsBack(env.floats, v.n, k);
    case Uint32Kind => Uint64ReadsBack(env.floats, v.n, k);
    case Uint64Kind => QuotedUint64ReadsBack(env.floats, v.n, k);
    case EnumKind(values) => EnumReads(env, values, v.n, k);
  }

  lemma KeyReads(first: bool, key: bytes, k: bytes)
    ensures NextKey((if first then [] else [COMMA]) + (Quote(key) + ([COLON] + k)), first) == Key(key, k)
  {
    var u := Quote(key) + ([COLON] + k);
    QuoteReadsBack(key, [COLON] + k);
    SkipWsStop(u);
    KeyFastIsReadString(u);
    SkipWsStop([COLON] + k);
    assert ([COLON] + k)[1..] == k;
    if first {
      assert [] + u == u;
    } else {
      SkipWsStop([COMMA] + u);
      assert ([COMMA] + u)[1..] == u;
    }
  }

  lemma PairTurn(s: bytes, first: bool, m: map<bytes, bytes>, key: bytes, u: bytes, v: bytes, rest: bytes)
    requires NextKey(s, first) == Key(key, u) && ReadString(u) == Ok(v, rest) && key !in m
    ensures ReadPairs(s, first, m) == ReadPairs(rest, false, m[key := v])
  {
    hide NextKey, ReadString;
  }

  lemma PairsEnd(k: bytes, first: bool, m: map<bytes, bytes>)
    ensures ReadPairs([RBRACE] + k, first, m) == Ok(m, k)
  {
    SkipWsStop([RBRACE] + k);
    assert ([RBRACE] + k)[1..] == k;
  }

  /** The map loop rebuilds the map from its sorted entries. */
  lemma {:induction false} PairsRead(keys: seq<bytes>, i: nat, m: map<bytes, bytes>, k: bytes)
    requires i <= |keys| && Distinct(keys) && Elements(keys) == m.Keys
    requires forall x :: x in keys ==> x in m
    ensures ReadPairs(PairsTo(keys, i, m, k), i == 0, Upto(keys, i, m)) == Ok(m, k)
    decreases |keys| - i
  {
    hide Quote, ReadString, NextKey, ReadPairs, Upto, Distinct, Elements;
    if i == |keys| {
      PairsEnd(k, i == 0, Upto(keys, i, m));
      UptoAll(keys, m);
    } else {
      var key, more := keys[i], PairsTo(keys, i + 1, m, k);
      KeyReads(i == 0, key, Quote(m[key]) + more);
      QuoteReadsBack(m[key], more);
      UptoNext(keys, i, m);
      PairTurn(PairsTo(keys, i, m, k), i == 0, Upto(keys, i, m), key, Quote(m[key]) + more, m[key], more);
      PairsRead(keys, i + 1, m, k);
    }
  }

  lemma AscendingDistinct(s: seq<bytes>)
    requires Ascending(LexLess, s)
    ensures Distinct(s)
  {
    LexIsOrder();
    forall i, j | 0 <= i < j < |s| ensures s[i] != s[j] {
      assert LexLess(s[i], s[j]);
    }
  }

  lemma MapReads(m: map<bytes, bytes>, k: bytes)
    ensures MapTo(m, k)[1..] == PairsTo(StringKeys(m.Keys), 0, m, k)
    ensures ReadPairs(MapTo(m, k)[1..], true, map[]) == Ok(m, k)
  {
    var keys := StringKeys(m.Keys);
    AscendingDistinct(keys);
    forall x | x in keys ensures x in m {
      assert x in Elements(keys);
    }
    PairsRead(keys, 0, m, k);
    assert Upto(keys, 0, m) == map[];
    assert ([LBRACE] + PairsTo(keys, 0, m, k))[1..] == PairsTo(keys, 0, m, k);
  }

  // ---------------------------------------------------------------- the state of the decoder between fields

  /** The message whose fields before `i` are those of `m` and the others fresh. */
  ghost function Partial(mt: MessageType, m: Message, i: nat): (r: Message)
    requires Shaped(mt, m)
    ensures Shaped(mt, r)
  {
    Message(seq(|mt.fields|, j requires 0 <= j < |mt.fields| => if j < i then m.slots[j] else ZeroSlot(mt.fields[j])),
            map o | o in m.oneofs && m.oneofs[o].field < i :: m.oneofs[o])
  }

  ghost function Populated(m: Message, i: nat): set<nat> {
    set o | o in m.oneofs && m.oneofs[o].field < i
  }

  /** What is decoded for a printed field. */
  ghost function Printed(f: Field, i: nat, m: Message): Payload
    requires i < |m.slots| && Emitted(f, i, m)
  {
    match f.card
    case Member(o) => Single(Known(m.oneofs[o].v))
    case _ =>
      match m.slots[i]
      case One(v) => Single(Known(v))
      case Pointer(p) => if p.Some? then Single(Known(p.value)) else Null
      case Many(vs) => List(vs)
      case Pairs(mm) => Map(mm)
      case InOneof => Null
  }

  lemma StoreStep(schema: Schema, t: nat, m: Message, i: nat)
    requires MessageOk(schema, t, m) && i < |schema(t).fields| && Emitted(schema(t).fields[i], i, m)
    ensures Store(schema(t), i, Printed(schema(t).fields[i], i, m), Partial(schema(t), m, i), Populated(m, i)) ==
            Some((Partial(schema(t), m, i + 1), Populated(m, i + 1)))
  {
    var mt := schema(t);
    var f := mt.fields[i];
    var p := Partial(mt, m, i);
    var q := Partial(mt, m, i + 1);
    assert SlotOk(schema, f, m.slots[i]);
    if f.card.Member? {
      var o := f.card.oneof;
      assert m.slots[i] == InOneof;
      forall x | x in m.oneofs && m.oneofs[x].field == i ensures x == o {
        assert ChoiceOk(schema, mt, x, m.oneofs[x]);
      }
      assert p.slots == q.slots;
      assert q.oneofs == p.oneofs[o := m.oneofs[o]];
      assert Populated(m, i + 1) == Populated(m, i) + {o};
    } else {
      assert SlotOf(f, Printed(f, i, m)) == m.slots[i];
      assert q.slots == p.slots[i := m.slots[i]];
      NoChoice(schema, t, m, i);
    }
  }

  lemma NoChoice(schema: Schema, t: nat, m: Message, i: nat)
    requires MessageOk(schema, t, m) && i < |schema(t).fields|
    requires !schema(t).fields[i].card.Member? || !Emitted(schema(t).fields[i], i, m)
    ensures Partial(schema(t), m, i + 1).oneofs == Partial(schema(t), m, i).oneofs
    ensures Populated(m, i + 1) == Populated(m, i)
  {
    forall x | x in m.oneofs ensures m.oneofs[x].field != i {
      assert ChoiceOk(schema, schema(t), x, m.oneofs[x]);
    }
  }

  lemma SkipStep(schema: Schema, t: nat, m: Message, i: nat)
    requires MessageOk(schema, t, m) && i < |schema(t).fields| && !Emitted(schema(t).fields[i], i, m)
    ensures Partial(schema(t), m, i + 1) == Partial(schema(t), m, i)
    ensures Populated(m, i + 1) == Populated(m, i)
  {
    var f := schema(t).fields[i];
    assert SlotOk(schema, f, m.slots[i]);
    assert m.slots[i] == ZeroSlot(f);
    NoChoice(schema, t, m, i);
    assert Partial(schema(t), m, i + 1).slots == Partial(schema(t), m, i).slots;
  }

  lemma PartialEnds(schema: Schema, t: nat, m: Message)
    requires MessageOk(schema, t, m)
    ensures Partial(schema(t), m, 0) == Fresh(schema(t))
    ensures Partial(schema(t), m, |schema(t).fields|) == m
    ensures Populated(m, 0) == {}
  {
    var mt := schema(t);
    assert Partial(mt, m, |mt.fields|).slots == m.slots;
    forall o | o in m.oneofs ensures m.oneofs[o].field < |mt.fields| {
      assert ChoiceOk(schema, mt, o, m.oneofs[o]);
    }
    assert Partial(mt, m, |mt.fields|).oneofs == m.oneofs;
    assert Partial(mt, m, 0).slots == Fresh(mt).slots;
  }

  // ---------------------------------------------------------------- finding the next field

  /** MatchFast in front of a key in quotes. */
  lemma MatchAtKey(s: bytes, first: bool, name: bytes, u: bytes)
    requires SkipWs(s) == s && s != [] && s[0] != RBRACE && Separator(s, first) == Some(u) && At(u, QUOTE)
    ensures MatchFast(s, first, name) ==
            if !RawName(u[1..], name) then NoMatch(s)
            else
              var c := SkipWs(u[1..][|name| + 1..]);
              if At(c, COLON) then Matched(c[1..]) else MatchErr
  {
    hide SkipWs, Separator, RawName;
  }

  /** The separator that FieldPrefix prints. */
  lemma PrefixSeparator(wrote: bool, other: bytes, k: bytes)
    ensures var s := PrefixTo(wrote, other, k);
            && SkipWs(s) == s && s != [] && s[0] != RBRACE
            && Separator(s, !wrote) == Some([QUOTE] + (other + ([QUOTE, COLON] + k)))
  {
    var s := PrefixTo(wrote, other, k);
    var u := [QUOTE] + (other + ([QUOTE, COLON] + k));
    SkipWsStop(s);
    SkipWsStop(u);
    PrefixShape(wrote, other, k);
  }

  /** MatchFast finds the printed field when it is the one asked for and passes otherwise. */
  lemma MatchPrefix(wrote: bool, name: bytes, other: bytes, k: bytes)
    requires AllPlain(name) && AllPlain(other)
    ensures MatchFast(PrefixTo(wrote, other, k), !wrote, name) ==
            if name == other then Matched(k) else NoMatch(PrefixTo(wrote, other, k))
  {
    hide RawName, AllPlain, MatchFast, PrefixTo, Separator;
    var v := other + ([QUOTE, COLON] + k);
    var u := [QUOTE] + v;
    PrefixSeparator(wrote, other, k);
    MatchAtKey(PrefixTo(wrote, other, k), !wrote, name, u);
    RawNameIs(name, other, k);
    assert u[1..] == v;
    SkipWsStop([COLON] + k);
    assert ([COLON] + k)[1..] == k;
    assert v[|other| + 1..] == [COLON] + k;
  }

  lemma PrefixShape(wrote: bool, other: bytes, k: bytes)
    ensures var s := PrefixTo(wrote, other, k);
            var u := [QUOTE] + (other + ([QUOTE, COLON] + k));
            if wrote then At(s, COMMA) && s[1..] == u else s == u
  {
    var u := [QUOTE] + (other + ([QUOTE, COLON] + k));
    assert [] + u == u;
    assert ([COMMA] + u)[1..] == u;
  }

  /** The raw comparison of names is exact, since no name holds a quote. */
  lemma RawNameIs(name: bytes, other: bytes, k: bytes)
    requires AllPlain(name) && AllPlain(other)
    ensures RawName(other + ([QUOTE, COLON] + k), name) <==> name == other
  {
    var v := other + ([QUOTE, COLON] + k);
    if |name| < |other| {
      assert v[|name|] == other[|name|];
      assert IsPlainByte(other[|name|]);
    } else if |name| > |other| {
      assert v[|other|] == QUOTE;
      assert IsPlainByte(name[|other|]);
    } else {
      assert v[..|name|] == other;
    }
  }

  lemma MatchClose(k: bytes, first: bool, name: bytes)
    ensures MatchFast([RBRACE] + k, first, name) == MatchEnd(k)
  {
    SkipWsStop([RBRACE] + k);
    assert ([RBRACE] + k)[1..] == k;
  }

  lemma FieldsEnded(schema: Schema, mt: MessageType, m: Message, i: nat, k: bytes)
    requires Bytes.Ended(k)
    ensures Bytes.Ended(FieldsTo(schema, mt, m, i, true, k))
    decreases |mt.fields| - i
  {
    if i < |mt.fields| && |m.slots| == |mt.fields| && !Emitted(mt.fields[i], i, m) {
      FieldsEnded(schema, mt, m, i + 1, k);
    }
  }

  // ---------------------------------------------------------------- nesting

  /** What is printed for field `i` nests at most `d` deep. */
  ghost predicate FieldFits(f: Field, i: nat, m: Message, d: int)
    requires i < |m.slots| && Emitted(f, i, m)
  {
    match f.card
    case Member(o) => ValueFits(m.oneofs[o].v, d)
    case _ => SlotFits(m.slots[i], d)
  }

  /** So does everything printed from field `i` on. */
  ghost predicate RestFits(mt: MessageType, m: Message, i: nat, d: int)
    requires Shaped(mt, m)
  {
    forall j :: i <= j < |mt.fields| && Emitted(mt.fields[j], j, m) ==> FieldFits(mt.fields[j], j, m, d)
  }

  /** A message fits if and only if all its printed fields do. */
  lemma FitsByField(schema: Schema, t: nat, m: Message, d: int)
    requires MessageOk(schema, t, m)
    ensures MessageFits(m, d) <==> d >= 1 && RestFits(schema(t), m, 0, d - 1)
  {
    var mt := schema(t);
    if RestFits(mt, m, 0, d - 1) {
      forall i | 0 <= i < |m.slots| ensures SlotFits(m.slots[i], d - 1) {
        assert SlotOk(schema, mt.fields[i], m.slots[i]);
        if Emitted(mt.fields[i], i, m) {
          assert FieldFits(mt.fields[i], i, m, d - 1);
        }
      }
      forall o | o in m.oneofs ensures ValueFits(m.oneofs[o].v, d - 1) {
        assert ChoiceOk(schema, mt, o, m.oneofs[o]);
        var i := m.oneofs[o].field;
        assert Emitted(mt.fields[i], i, m) && FieldFits(mt.fields[i], i, m, d - 1);
      }
    }
  }

  lemma RestNext(mt: MessageType, m: Message, i: nat, d: int)
    requires Shaped(mt, m) && i < |mt.fields|
    ensures Emitted(mt.fields[i], i, m) ==> (RestFits(mt, m, i, d) <==> FieldFits(mt.fields[i], i, m, d) && RestFits(mt, m, i + 1, d))
    ensures !Emitted(mt.fields[i], i, m) ==> (RestFits(mt, m, i, d) <==> RestFits(mt, m, i + 1, d))
  {
    hide Emitted, FieldFits;
  }

  // ---------------------------------------------------------------- the round trip

  lemma {:induction false} ItemReads(env: Env, kind: Kind, v: Value, k: bytes, depth: nat)
    requires SchemaOk(env.schema) && (kind.EnumKind? ==> EnumOk(kind.values))
    requires ValueOk(env.schema, kind, v) && Bytes.Ended(k)
    ensures ReadItem(env, true, kind, ValueTo(env.schema, kind, v, k), depth) == IfFits(ValueFits(v, MAX_DEPTH - depth), Known(v), k)
    decreases v, 0, 0
  {
    if kind.MessageKind? {
      MessageReads(env, kind.message, v.m, k, depth);
      hide FastMessage, SlowMessage, MessageFits;
    } else {
      ScalarReads(env, kind, v, k);
    }
  }

  /** One element of a list as it is printed. */
  lemma ElementTurn(env: Env, kind: Kind, vs: seq<Value>, i: nat, k: bytes, depth: nat)
    requires i < |vs| && ValueOk(env.schema, kind, vs[i])
    ensures var more := ListTo(env.schema, kind, vs, i + 1, k);
            var r := ReadItem(env, true, kind, ValueTo(env.schema, kind, vs[i], more), depth);
            var l := ReadList(env, true, kind, ListTo(env.schema, kind, vs, i, k), i == 0, depth);
            && (r.Err? ==> l.Err?)
            && (r == Ok(Known(vs[i]), more) ==>
                  var rest := ReadList(env, true, kind, more, false, depth);
                  l == if rest.Err? then Err else Ok([vs[i]] + rest.value, rest.rest))
  {
    hide ReadItem, ReadNull, NextElem, ValueTo, StartsValue, ValueOk;
    var u := ValueTo(env.schema, kind, vs[i], ListTo(env.schema, kind, vs, i + 1, k));
    ValueStarts(env, kind, vs[i], ListTo(env.schema, kind, vs, i + 1, k));
    StartsValueFacts(u);
    ElementReads(u, i == 0);
    assert ListTo(env.schema, kind, vs, i, k) == (if i > 0 then [COMMA] else []) + u;
  }

  lemma ListEnd(env: Env, kind: Kind, vs: seq<Value>, k: bytes, depth: nat)
    ensures ReadList(env, true, kind, ListTo(env.schema, kind, vs, |vs|, k), |vs| == 0, depth) == Ok([], k)
    ensures vs[|vs|..] == []
  {
    ListClose(k, |vs| == 0);
  }

  lemma ListEnded(schema: Schema, kind: Kind, vs: seq<Value>, i: nat, k: bytes)
    requires 0 < i <= |vs|
    ensures Bytes.Ended(ListTo(schema, kind, vs, i, k))
  {
    hide ValueTo;
  }

  lemma {:induction false} ListReads(env: Env, kind: Kind, vs: seq<Value>, i: nat, k: bytes, depth: nat)
    requires SchemaOk(env.schema) && (kind.EnumKind? ==> EnumOk(kind.values)) && i <= |vs|
    requires forall j :: 0 <= j < |vs| ==> ValueOk(env.schema, kind, vs[j])
    ensures ReadList(env, true, kind, ListTo(env.schema, kind, vs, i, k), i == 0, depth) ==
            IfFits(forall j :: i <= j < |vs| ==> ValueFits(vs[j], MAX_DEPTH - depth), vs[i..], k)
    decreases vs, 1, |vs| - i
  {
    hide ReadItem, ReadList, ListTo, ValueTo, ValueOk, ValueFits, SchemaOk, EnumOk;
    if i == |vs| {
      ListEnd(env, kind, vs, k, depth);
    } else {
      ListEnded(env.schema, kind, vs, i + 1, k);
      ItemReads(env, kind, vs[i], ListTo(env.schema, kind, vs, i + 1, k), depth);
      ElementTurn(env, kind, vs, i, k, depth);
      ListReads(env, kind, vs, i + 1, k, depth);
      assert vs[i..] == [vs[i]] + vs[i + 1..];
    }
  }

  lemma ListClose(k: bytes, first: bool)
    ensures NextElem([RBRACKET] + k, first) == EndArray(k)
  {
    SkipWsStop([RBRACKET] + k);
    assert ([RBRACKET] + k)[1..] == k;
  }

  lemma ElementReads(u: bytes, first: bool)
    requires StartsValue(u)
    ensures NextElem((if !first then [COMMA] else []) + u, first) == Element(u)
  {
    StartsValueFacts(u);
    if first {
      assert [] + u == u;
    } else {
      SkipWsStop([COMMA] + u);
      assert ([COMMA] + u)[1..] == u;
    }
  }

  lemma {:induction false} PayloadReads(env: Env, t: nat, i: nat, m: Message, k: bytes, depth: nat)
    requires SchemaOk(env.schema) && MessageOk(env.schema, t, m) && i < |env.schema(t).fields|
    requires Emitted(env.schema(t).fields[i], i, m) && Bytes.Ended(k)
    ensures var f := env.schema(t).fields[i];
            ReadPayload(env, true, f, FieldTo(env.schema, f, i, m, k), depth) ==
            IfFits(FieldFits(f, i, m, MAX_DEPTH - depth), Printed(f, i, m), k)
    decreases m, 0, 0
  {
    var f := env.schema(t).fields[i];
    FieldIsOk(env.schema, t, i);
    assert SlotOk(env.schema, f, m.slots[i]);
    if f.card.Member? {
      assert ChoiceOk(env.schema, env.schema(t), f.card.oneof, m.oneofs[f.card.oneof]);
      hide ReadPayload, FastMessage, SlowMessage, ValueTo, ListTo, TypeOk, FieldOk, SchemaOk, ValueFits;
      SingleReads(env, f, m.oneofs[f.card.oneof].v, k, depth);
    } else {
      hide ReadPayload, FastMessage, SlowMessage, ValueTo, ListTo, MapTo, TypeOk, FieldOk, SchemaOk, EnumOk, ValueFits;
      match m.slots[i]
      case One(v) => SingleReads(env, f, v, k, depth);
      case Pointer(p) => SingleReads(env, f, p.value, k, depth);
      case Pairs(mm) => PairsFieldRead(env, f, mm, k, depth);
      case Many(vs) => ManyRead(env, f, vs, k, depth);
    }
  }

  lemma PairsFieldRead(env: Env, f: Field, mm: map<bytes, bytes>, k: bytes, depth: nat)
    requires f.card.StringMap?
    ensures ReadPayload(env, true, f, MapTo(mm, k), depth) == IfFits(depth + 1 <= MAX_DEPTH, Map(mm), k)
  {
    MapReads(mm, k);
    StartsValueFacts(MapTo(mm, k));
    hide MapTo, ReadPairs;
  }

  lemma {:induction false} ManyRead(env: Env, f: Field, vs: seq<Value>, k: bytes, depth: nat)
    requires SchemaOk(env.schema) && (f.kind.EnumKind? ==> EnumOk(f.kind.values)) && f.card.Repeated?
    requires forall j :: 0 <= j < |vs| ==> ValueOk(env.schema, f.kind, vs[j])
    ensures ReadPayload(env, true, f, [LBRACKET] + ListTo(env.schema, f.kind, vs, 0, k), depth) ==
            IfFits(depth + 1 <= MAX_DEPTH && forall j :: 0 <= j < |vs| ==> ValueFits(vs[j], MAX_DEPTH - depth - 1), List(vs), k)
    decreases vs, 2
  {
    hide ReadList, ListTo, SchemaOk, EnumOk, ValueOk, ValueFits;
    ListReads(env, f.kind, vs, 0, k, depth + 1);
    assert vs[0..] == vs;
    var s := [LBRACKET] + ListTo(env.schema, f.kind, vs, 0, k);
    StartsValueFacts(s);
    assert s[1..] == ListTo(env.schema, f.kind, vs, 0, k);
  }

  lemma {:induction false} SingleReads(env: Env, f: Field, v: Value, k: bytes, depth: nat)
    requires SchemaOk(env.schema) && FieldOk(f) && !f.card.Repeated? && !f.card.StringMap?
    requires ValueOk(env.schema, f.kind, v) && Bytes.Ended(k)
    ensures ReadPayload(env, true, f, ValueTo(env.schema, f.kind, v, k), depth) ==
            IfFits(ValueFits(v, MAX_DEPTH - depth), Single(Known(v)), k)
    decreases v, 1, 0
  {
    ItemReads(env, f.kind, v, k, depth);
    ValueStarts(env, f.kind, v, k);
    StartsValueFacts(ValueTo(env.schema, f.kind, v, k));
    hide ReadItem, ValueTo, ValueFits;
  }

  /** What the ordered decoder comes to, depending on the nesting. */
  function FastIfFits(fits: bool, m: Message, k: bytes): FastResult {
    if fits then FastDone(m, k) else FastErr
  }

  /** The turn of the ordered decoder at a field that is printed. */
  lemma PrintedTurn(env: Env, t: nat, m: Message, i: nat, wrote: bool, k: bytes, depth: nat)
    requires SchemaOk(env.schema) && MessageOk(env.schema, t, m) && i < |env.schema(t).fields|
    requires Emitted(env.schema(t).fields[i], i, m)
    requires var f := env.schema(t).fields[i];
             var more := FieldsTo(env.schema, env.schema(t), m, i + 1, true, [RBRACE] + k);
             ReadPayload(env, true, f, FieldTo(env.schema, f, i, m, more), depth) ==
             IfFits(FieldFits(f, i, m, MAX_DEPTH - depth), Printed(f, i, m), more)
    ensures var mt := env.schema(t);
            FastFields(env, t, i, FieldsTo(env.schema, mt, m, i, wrote, [RBRACE] + k), !wrote, Populated(m, i), Partial(mt, m, i), depth) ==
            if !FieldFits(mt.fields[i], i, m, MAX_DEPTH - depth) then FastErr
            else FastFields(env, t, i + 1, FieldsTo(env.schema, mt, m, i + 1, true, [RBRACE] + k), false, Populated(m, i + 1), Partial(mt, m, i + 1), depth)
  {
    hide MatchFast, ReadPayload, Store, Partial, Populated, Printed, PrefixTo, FieldTo, Emitted, SlotOk, ChoiceOk, FieldFits;
    var mt := env.schema(t);
    var f := mt.fields[i];
    var more := FieldsTo(env.schema, mt, m, i + 1, true, [RBRACE] + k);
    FieldIsOk(env.schema, t, i);
    MatchPrefix(wrote, f.json, f.json, FieldTo(env.schema, f, i, m, more));
    StoreStep(env.schema, t, m, i);
  }

  lemma {:induction false} FieldsRead(env: Env, t: nat, m: Message, i: nat, wrote: bool, k: bytes, depth: nat)
    requires SchemaOk(env.schema) && MessageOk(env.schema, t, m) && Shaped(env.schema(t), m) && i <= |env.schema(t).fields|
    ensures FastFields(env, t, i, FieldsTo(env.schema, env.schema(t), m, i, wrote, [RBRACE] + k), !wrote,
                       Populated(m, i), Partial(env.schema(t), m, i), depth) ==
            FastIfFits(RestFits(env.schema(t), m, i, MAX_DEPTH - depth), m, k)
    decreases m, 1, |env.schema(t).fields| - i
  {
    hide MatchFast, ReadPayload, Store, Partial, Populated, Printed, PrefixTo, FieldTo, Emitted, SlotOk, ChoiceOk, FieldFits, RestFits, SchemaOk, MessageOk;
    var mt := env.schema(t);
    var s := FieldsTo(env.schema, mt, m, i, wrote, [RBRACE] + k);
    if i == |mt.fields| {
      SkipWsStop(s);
      assert s[1..] == k;
      PartialEnds(env.schema, t, m);
      NothingLeft(mt, m, MAX_DEPTH - depth);
    } else {
      RestNext(mt, m, i, MAX_DEPTH - depth);
      if Emitted(mt.fields[i], i, m) {
        var more := FieldsTo(env.schema, mt, m, i + 1, true, [RBRACE] + k);
        FieldsEnded(env.schema, mt, m, i + 1, [RBRACE] + k);
        PayloadReads(env, t, i, m, more, depth);
        PrintedTurn(env, t, m, i, wrote, k, depth);
        FieldsRead(env, t, m, i + 1, true, k, depth);
      } else {
        SkipStep(env.schema, t, m, i);
        FieldsRead(env, t, m, i + 1, wrote, k, depth);
        NotNext(env, t, m, i, wrote, k, depth);
      }
    }
  }

  lemma NothingLeft(mt: MessageType, m: Message, d: int)
    requires Shaped(mt, m)
    ensures RestFits(mt, m, |mt.fields|, d)
  {
  }

  /** A field that is not printed is passed over, unless nothing more is printed and the object ends. */
  lemma NotNext(env: Env, t: nat, m: Message, i: nat, wrote: bool, k: bytes, depth: nat)
    requires SchemaOk(env.schema) && MessageOk(env.schema, t, m) && Shaped(env.schema(t), m) && i < |env.schema(t).fields|
    requires !Emitted(env.schema(t).fields[i], i, m)
    ensures var mt := env.schema(t);
            var s := FieldsTo(env.schema, mt, m, i + 1, wrote, [RBRACE] + k);
            || MatchFast(s, !wrote, mt.fields[i].json) == NoMatch(s)
            || (MatchFast(s, !wrote, mt.fields[i].json) == MatchEnd(k) && Partial(mt, m, i) == m && RestFits(mt, m, i, MAX_DEPTH - depth))
  {
    hide MatchFast, Partial, PrefixTo, FieldTo, FieldsTo;
    var mt := env.schema(t);
    var f := mt.fields[i];
    FieldIsOk(env.schema, t, i);
    var j := NextEmitted(env, t, m, i + 1, wrote, [RBRACE] + k);
    if j == |mt.fields| {
      MatchClose(k, !wrote, f.json);
      SkipStep(env.schema, t, m, i);
      PartialEnds(env.schema, t, m);
    } else {
      FieldIsOk(env.schema, t, j);
      var more := FieldTo(env.schema, mt.fields[j], j, m, FieldsTo(env.schema, mt, m, j + 1, true, [RBRACE] + k));
      MatchPrefix(wrote, f.json, mt.fields[j].json, more);
    }
  }

  /** The next field that is printed, if there is one. */
  lemma NextEmitted(env: Env, t: nat, m: Message, i: nat, wrote: bool, k: bytes) returns (j: nat)
    requires MessageOk(env.schema, t, m) && i <= |env.schema(t).fields|
    ensures i <= j <= |env.schema(t).fields|
    ensures forall n :: i <= n < j ==> n < |m.slots| && !Emitted(env.schema(t).fields[n], n, m)
    ensures var mt := env.schema(t);
            var s := FieldsTo(env.schema, mt, m, i, wrote, k);
            if j == |mt.fields| then s == k && Partial(mt, m, i) == m
            else Emitted(mt.fields[j], j, m)
                 && s == PrefixTo(wrote, mt.fields[j].json, FieldTo(env.schema, mt.fields[j], j, m, FieldsTo(env.schema, mt, m, j + 1, true, k)))
    decreases |env.schema(t).fields| - i
  {
    hide *;
    var mt := env.schema(t);
    TypedShape(env.schema, t, m);
    FieldsStep(env.schema, mt, m, i, wrote, k);
    if i == |mt.fields| {
      j := i;
      PartialEnds(env.schema, t, m);
    } else if Emitted(mt.fields[i], i, m) {
      j := i;
    } else {
      j := NextEmitted(env, t, m, i + 1, wrote, k);
      SkipStep(env.schema, t, m, i);
    }
  }

  lemma FieldsStep(schema: Schema, mt: MessageType, m: Message, i: nat, wrote: bool, k: bytes)
    requires i <= |mt.fields| && Shaped(mt, m)
    ensures |m.slots| == |mt.fields|
    ensures FieldsTo(schema, mt, m, i, wrote, k) ==
            if i == |mt.fields| then k
            else if Emitted(mt.fields[i], i, m) then
              PrefixTo(wrote, mt.fields[i].json, FieldTo(schema, mt.fields[i], i, m, FieldsTo(schema, mt, m, i + 1, true, k)))
            else FieldsTo(schema, mt, m, i + 1, wrote, k)
  {
    hide FieldTo, PrefixTo, Emitted;
  }

  /**
   The ordered decoder reads back every well-typed message that nests no deeper than allowed, without
   giving up, and stops at the message's closing brace whatever follows. Deeper ones it refuses.
   */
  lemma {:induction false} MessageReadsFast(env: Env, t: nat, m: Message, k: bytes, depth: nat)
    requires SchemaOk(env.schema) && MessageOk(env.schema, t, m)
    ensures FastMessage(env, t, MessageTo(env.schema, t, m, k), depth) == FastIfFits(MessageFits(m, MAX_DEPTH - depth), m, k)
    decreases m, 2, 0
  {
    hide *;
    MessageText(env.schema, t, m, k);
    FastOpens(env, t, FieldsTo(env.schema, env.schema(t), m, 0, false, [RBRACE] + k), depth);
    PartialEnds(env.schema, t, m);
    FitsByField(env.schema, t, m, MAX_DEPTH - depth);
    FastCases(MessageFits(m, MAX_DEPTH - depth), m, k);
    TypedShape(env.schema, t, m);
    FieldsRead(env, t, m, 0, false, k, depth + 1);
  }

  lemma TypedShape(schema: Schema, t: nat, m: Message)
    requires MessageOk(schema, t, m)
    ensures Shaped(schema(t), m)
  {
  }

  lemma FastCases(fits: bool, m: Message, k: bytes)
    ensures FastIfFits(fits, m, k) == if fits then FastDone(m, k) else FastErr
  {
  }

  lemma MessageText(schema: Schema, t: nat, m: Message, k: bytes)
    ensures MessageTo(schema, t, m, k) == [LBRACE] + FieldsTo(schema, schema(t), m, 0, false, [RBRACE] + k)
  {
  }

  /** The ordered decoder in front of an opening brace. */
  lemma FastOpens(env: Env, t: nat, u: bytes, depth: nat)
    ensures FastMessage(env, t, [LBRACE] + u, depth) ==
            if depth + 1 > MAX_DEPTH then FastErr else FastFields(env, t, 0, u, true, {}, Fresh(env.schema(t)), depth + 1)
  {
    hide FastFields, Fresh;
    SkipWsStop([LBRACE] + u);
    assert ([LBRACE] + u)[1..] == u;
  }

  lemma {:induction false} MessageReads(env: Env, t: nat, m: Message, k: bytes, depth: nat)
    requires SchemaOk(env.schema) && MessageOk(env.schema, t, m)
    ensures ReadMessage(env, true, t, MessageTo(env.schema, t, m, k), depth) == IfFits(MessageFits(m, MAX_DEPTH - depth), m, k)
    decreases m, 3, 0
  {
    hide MessageTo, FastMessage, SlowMessage, MessageFits, SchemaOk, MessageOk;
    MessageReadsFast(env, t, m, k, depth);
  }

  /** Unmarshal inverts Marshal on the messages within the nesting limit, and refuses the text of all others. */
  lemma UnmarshalMarshal(env: Env, t: nat, m: Message)
    requires SchemaOk(env.schema) && MessageOk(env.schema, t, m)
    ensures Unmarshal(env, t, MessageTo(env.schema, t, m, [])) == if MessageFits(m, MAX_DEPTH) then Some(m) else None
  {
    hide MessageTo, FastMessage, SlowMessage, MessageFits, SchemaOk, MessageOk, Unmarshal;
    var s := MessageTo(env.schema, t, m, []);
    MessageReadsFast(env, t, m, [], 0);
    Refine.FastRefines(env, t, s, 0);
    Refine.EntryIsSlow(env, t, s);
  }
}
