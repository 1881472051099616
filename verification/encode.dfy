/**
 The generated encoder (marshalProtoJSONXTo) over any schema.

 `FieldsTo(..., k)` and the other `...To` functions give the text they print followed by `k`.
 Values that do not have the type of their field, which the struct types exclude, print nothing.
 */
module Encode {
  import opened Bytes
  import opened Text
  import opened Numbers
  import opened Schema
  import opened Order

  // ---------------------------------------------------------------- printing

  /** Whether a field is printed: not when it holds its zero value or nothing. */
  predicate Emitted(f: Field, i: nat, m: Message)
    requires i < |m.slots|
  {
    match f.card
    case Member(o) => o in m.oneofs && m.oneofs[o].field == i
    case _ => m.slots[i] != ZeroSlot(f)
  }

  function EnumTo(values: seq<EnumValue>, n: int, k: bytes): bytes {
    match FindNumber(values, n)
    case Some(name) => Quote(name) + k
    case None => Decimal(n) + k
  }

  function BoolText(b: bool): bytes {
    if b then TRUE else FALSE
  }

  ghost function ValueTo(schema: Schema, kind: Kind, v: Value, k: bytes): bytes
    decreases v, 0
  {
    match (kind, v)
    case (StringKind, Str(s)) => Quote(s) + k
    case (BoolKind, Bool(b)) => BoolText(b) + k
    case (Int32Kind, Num(n)) => Decimal(n) + k
    case (Int64Kind, Num(n)) => QuotedDecimal(n) + k
    case (Uint32Kind, Num(n)) => Decimal(n) + k
    case (Uint64Kind, Num(n)) => QuotedDecimal(n) + k
    case (EnumKind(values), Num(n)) => EnumTo(values, n, k)
    case (MessageKind(t), Sub(m)) => MessageTo(schema, t, m, k)
    case _ => k
  }

  /** The elements of a list from `i` on and the closing bracket. */
  ghost function ListTo(schema: Schema, kind: Kind, vs: seq<Value>, i: nat, k: bytes): bytes
    requires i <= |vs|
    decreases vs, |vs| - i
  {
    if i == |vs| then [RBRACKET] + k
    else (if i > 0 then [COMMA] else []) + ValueTo(schema, kind, vs[i], ListTo(schema, kind, vs, i + 1, k))
  }

  /** StringMap: the entries of the given keys and the closing brace. */
  function PairsTo(keys: seq<bytes>, i: nat, m: map<bytes, bytes>, k: bytes): bytes
    requires i <= |keys| && forall x :: x in keys ==> x in m
    decreases |keys| - i
  {
    if i == |keys| then [RBRACE] + k
    else (if i > 0 then [COMMA] else []) + (Quote(keys[i]) + ([COLON] + (Quote(m[keys[i]]) + PairsTo(keys, i + 1, m, k))))
  }

  ghost function MapTo(m: map<bytes, bytes>, k: bytes): bytes {
    assert forall x :: x in StringKeys(m.Keys) ==> x in Elements(StringKeys(m.Keys));
    [LBRACE] + PairsTo(StringKeys(m.Keys), 0, m, k)
  }

  ghost function SlotTo(schema: Schema, kind: Kind, slot: Slot, k: bytes): bytes
    decreases slot
  {
    match slot
    case One(v) => ValueTo(schema, kind, v, k)
    case Pointer(Some(v)) => ValueTo(schema, kind, v, k)
    case Pointer(None) => k
    case Many(vs) => [LBRACKET] + ListTo(schema, kind, vs, 0, k)
    case Pairs(m) => MapTo(m, k)
    case InOneof => k
  }

  /** FieldPrefix. */
  function PrefixTo(wrote: bool, name: bytes, k: bytes): bytes {
    (if wrote then [COMMA] else []) + ([QUOTE] + (name + ([QUOTE, COLON] + k)))
  }

  ghost function FieldTo(schema: Schema, f: Field, i: nat, m: Message, k: bytes): bytes
    requires i < |m.slots| && Emitted(f, i, m)
    decreases m, 0, 0
  {
    match f.card
    case Member(o) => ValueTo(schema, f.kind, m.oneofs[o].v, k)
    case _ => SlotTo(schema, f.kind, m.slots[i], k)
  }

  /** The fields from `i` on; `wrote` tells whether one has been printed. */
  ghost function FieldsTo(schema: Schema, mt: MessageType, m: Message, i: nat, wrote: bool, k: bytes): bytes
    decreases m, 1, |mt.fields| - i
  {
    if i >= |mt.fields| || |m.slots| != |mt.fields| then k
    else if Emitted(mt.fields[i], i, m) then
      PrefixTo(wrote, mt.fields[i].json, FieldTo(schema, mt.fields[i], i, m, FieldsTo(schema, mt, m, i + 1, true, k)))
    else FieldsTo(schema, mt, m, i + 1, wrote, k)
  }

  /** marshalProtoJSONXTo. */
  ghost function MessageTo(schema: Schema, t: nat, m: Message, k: bytes): bytes
    decreases m, 2, 0
  {
    [LBRACE] + FieldsTo(schema, schema(t), m, 0, false, [RBRACE] + k)
  }

  // ---------------------------------------------------------------- well-typed messages

  ghost predicate ValueOk(schema: Schema, kind: Kind, v: Value)
    decreases v, 0
  {
    match kind
    case StringKind => v.Str?
    case BoolKind => v.Bool?
    case Int32Kind => v.Num? && IsInt32(v.n)
    case Int64Kind => v.Num? && IsInt64(v.n)
    case Uint32Kind => v.Num? && IsUint32(v.n)
    case Uint64Kind => v.Num? && IsUint64(v.n)
    case EnumKind(_) => v.Num? && IsInt32(v.n)
    case MessageKind(t) => v.Sub? && MessageOk(schema, t, v.m)
  }

  ghost predicate SlotOk(schema: Schema, f: Field, slot: Slot)
    decreases slot
  {
    match f.card
    case Implicit =>
      if f.kind.MessageKind? then slot.Pointer? && (slot.p.Some? ==> ValueOk(schema, f.kind, slot.p.value))
      else slot.One? && ValueOk(schema, f.kind, slot.v)
    case Optional => slot.Pointer? && (slot.p.Some? ==> ValueOk(schema, f.kind, slot.p.value))
    case Repeated => slot.Many? && forall i :: 0 <= i < |slot.vs| ==> ValueOk(schema, f.kind, slot.vs[i])
    case StringMap => slot.Pairs?
    case Member(_) => slot.InOneof?
  }

  ghost predicate ChoiceOk(schema: Schema, mt: MessageType, o: nat, c: Choice)
    decreases c
  {
    c.field < |mt.fields| && mt.fields[c.field].card == Member(o) && ValueOk(schema, mt.fields[c.field].kind, c.v)
  }

  /** The values a struct of this type can hold: no nil elements and no nil oneof messages. */
  ghost predicate MessageOk(schema: Schema, t: nat, m: Message)
    decreases m
  {
    var mt := schema(t);
    && Shaped(mt, m)
    && (forall i :: 0 <= i < |mt.fields| ==> SlotOk(schema, mt.fields[i], m.slots[i]))
    && (forall o :: o in m.oneofs ==> ChoiceOk(schema, mt, o, m.oneofs[o]))
  }

  /** The text of a value nests at most `d` objects and arrays. */
  ghost predicate ValueFits(v: Value, d: int)
    decreases v
  {
    v.Sub? ==> MessageFits(v.m, d)
  }

  ghost predicate SlotFits(slot: Slot, d: int)
    decreases slot
  {
    match slot
    case One(v) => ValueFits(v, d)
    case Pointer(p) => p.Some? ==> ValueFits(p.value, d)
    case Many(vs) => vs != [] ==> d >= 1 && forall i :: 0 <= i < |vs| ==> ValueFits(vs[i], d - 1)
    case Pairs(m) => m != map[] ==> d >= 1
    case InOneof => true
  }

  ghost predicate MessageFits(m: Message, d: int)
    decreases m
  {
    && d >= 1
    && (forall i :: 0 <= i < |m.slots| ==> SlotFits(m.slots[i], d - 1))
    && (forall o :: o in m.oneofs ==> ValueFits(m.oneofs[o].v, d - 1))
  }
}
