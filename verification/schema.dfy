/**
 Message types and message values. A schema maps the index of a message type to its fields, so
 types may refer to each other and to themselves.
 */
module Schema {
  import opened Bytes
  import opened Text
  import opened Numbers

  datatype EnumValue = EnumValue(name: bytes, number: int)

  datatype Kind =
    | StringKind
    | BoolKind
    | Int32Kind
    | Int64Kind
    | Uint32Kind
    | Uint64Kind
    | EnumKind(values: seq<EnumValue>)
    | MessageKind(message: nat)

  /** How often a field may occur: `Member(o)` is a member of the oneof numbered `o`. */
  datatype Card = Implicit | Optional | Repeated | StringMap | Member(oneof: nat)

  datatype Field = Field(json: bytes, proto: bytes, kind: Kind, card: Card)

  datatype MessageType = MessageType(fields: seq<Field>)

  type Schema = nat -> MessageType

  /** The value of one element. Enum values are their numbers. */
  datatype Value = Str(s: bytes) | Bool(b: bool) | Num(n: int) | Sub(m: Message)

  /** What a struct field holds: a scalar, a pointer, a slice or a map. A member of a oneof has no field of its own. */
  datatype Slot =
    | One(v: Value)
    | Pointer(p: Option<Value>)
    | Many(vs: seq<Value>)
    | Pairs(m: map<bytes, bytes>)
    | InOneof

  /** The populated member of a oneof. */
  datatype Choice = Choice(field: nat, v: Value)

  /** One slot per field, and the populated oneofs. */
  datatype Message = Message(slots: seq<Slot>, oneofs: map<nat, Choice>)

  function ZeroValue(k: Kind): Value {
    match k
    case StringKind => Str([])
    case BoolKind => Bool(false)
    case _ => Num(0)
  }

  function ZeroSlot(f: Field): Slot {
    match f.card
    case Implicit => if f.kind.MessageKind? then Pointer(None) else One(ZeroValue(f.kind))
    case Optional => Pointer(None)
    case Repeated => Many([])
    case StringMap => Pairs(map[])
    case Member(_) => InOneof
  }

  function Fresh(mt: MessageType): (m: Message)
    ensures Shaped(mt, m)
  {
    Message(seq(|mt.fields|, i requires 0 <= i < |mt.fields| => ZeroSlot(mt.fields[i])), map[])
  }

  predicate Shaped(mt: MessageType, m: Message) {
    |m.slots| == |mt.fields|
  }

  // ---------------------------------------------------------------- names

  predicate Names(f: Field, key: bytes) {
    key == f.json || key == f.proto
  }

  /** The number of the first field from `i` on that goes by `key`. */
  function FindFrom(fields: seq<Field>, key: bytes, i: nat): (r: Option<nat>)
    requires i <= |fields|
    ensures r.Some? ==> i <= r.value < |fields| && Names(fields[r.value], key)
    ensures r.None? ==> forall j :: i <= j < |fields| ==> !Names(fields[j], key)
    decreases |fields| - i
  {
    if i == |fields| then None
    else if Names(fields[i], key) then Some(i)
    else FindFrom(fields, key, i + 1)
  }

  /** The switch over the keys of a message. */
  function Find(mt: MessageType, key: bytes): (r: Option<nat>)
    ensures r.Some? ==> r.value < |mt.fields| && Names(mt.fields[r.value], key)
    ensures r.None? ==> forall j :: 0 <= j < |mt.fields| ==> !Names(mt.fields[j], key)
  {
    FindFrom(mt.fields, key, 0)
  }

  /** The number of the first enum value called `name`. */
  function FindName(values: seq<EnumValue>, name: bytes): Option<int> {
    if values == [] then None
    else if values[0].name == name then Some(values[0].number)
    else FindName(values[1..], name)
  }

  /** The name of the first enum value with this number, which is the one printed. */
  function FindNumber(values: seq<EnumValue>, n: int): Option<bytes> {
    if values == [] then None
    else if values[0].number == n then Some(values[0].name)
    else FindNumber(values[1..], n)
  }

  // ---------------------------------------------------------------- well-formed schemas

  predicate EnumOk(values: seq<EnumValue>) {
    && (forall i :: 0 <= i < |values| ==> IsInt32(values[i].number))
    && (forall i, j :: 0 <= i < j < |values| ==> values[i].name != values[j].name)
  }

  predicate FieldOk(f: Field) {
    AllPlain(f.json) && AllPlain(f.proto) && (f.kind.EnumKind? ==> EnumOk(f.kind.values))
  }

  /** No key belongs to two fields. */
  predicate NamesDistinct(mt: MessageType) {
    forall i, j :: 0 <= i < j < |mt.fields| ==>
      !Names(mt.fields[j], mt.fields[i].json) && !Names(mt.fields[j], mt.fields[i].proto)
  }

  predicate TypeOk(mt: MessageType) {
    NamesDistinct(mt) && forall i :: 0 <= i < |mt.fields| ==> FieldOk(mt.fields[i])
  }

  ghost predicate SchemaOk(schema: Schema) {
    forall i: nat :: TypeOk(schema(i))
  }

  lemma FieldIsOk(schema: Schema, t: nat, i: nat)
    requires SchemaOk(schema) && i < |schema(t).fields|
    ensures TypeOk(schema(t)) && NamesDistinct(schema(t)) && FieldOk(schema(t).fields[i])
    ensures schema(t).fields[i].kind.EnumKind? ==> EnumOk(schema(t).fields[i].kind.values)
    ensures AllPlain(schema(t).fields[i].json)
  {
    assert TypeOk(schema(t));
  }

  lemma FindUnique(mt: MessageType, key: bytes, i: nat)
    requires NamesDistinct(mt) && i < |mt.fields| && Names(mt.fields[i], key)
    ensures Find(mt, key) == Some(i)
  {
  }

  lemma {:induction false} EnumRoundTrip(values: seq<EnumValue>, n: int)
    requires EnumOk(values) && FindNumber(values, n).Some?
    ensures FindName(values, FindNumber(values, n).value) == Some(n)
  {
    if values[0].number != n {
      assert EnumOk(values[1..]);
      EnumRoundTrip(values[1..], n);
      NumberHasName(values[1..], n);
    }
  }

  lemma NumberHasName(values: seq<EnumValue>, n: int)
    requires FindNumber(values, n).Some?
    ensures exists i :: 0 <= i < |values| && values[i].name == FindNumber(values, n).value && values[i].number == n
  {
    if values[0].number != n {
      NumberHasName(values[1..], n);
      var i :| 0 <= i < |values[1..]| && values[1..][i].name == FindNumber(values[1..], n).value && values[1..][i].number == n;
      assert values[i + 1] == values[1..][i];
    }
  }
}
