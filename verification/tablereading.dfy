/**
 What a JSON text says about a message that the table decoder fills, written out as in `Reading`. The
 target shows where an unknown enum name is discarded, in messages it already points to, and nowhere
 else.
 */
module TableReading {
  import opened Bytes
  import opened Json
  import opened Schema
  import opened Generated
  import opened Exact
  import opened Reading
  import opened Table
  import opened TableActs
  import TM = TableMeanings
  import A = Acts
  import M = Meanings
  import G = Agreement

  // ---------------------------------------------------------------- what an object says

  /** What the fields hold when decoding begins: nothing in a type with more than 64 fields, which is cleared first. */
  function BaseOf(mt: MessageType, target: Option<Message>): Option<Message> {
    if |mt.fields| <= 64 && target.Some? && TargetOk(mt, target.value) then target else None
  }

  /** Field `i` holds what it held at the start. */
  predicate Untouched(f: Field, base: Option<Message>, i: nat, slot: Slot) {
    if base.Some? && i < |base.value.slots| then slot == base.value.slots[i] else IsZero(f, slot)
  }

  /** The message that a field points to. */
  function PointedTo(base: Option<Message>, f: Field, i: nat): Option<Message> {
    if base.Some? && i < |base.value.slots| && !f.card.Member? then
      match base.value.slots[i]
      case Pointer(Some(Sub(m))) => Some(m)
      case _ => None
    else None
  }

  ghost predicate ItemInto(env: Env, kind: Kind, target: Option<Message>, v: Tree, x: Value, depth: nat)
    decreases 100 - depth, 1, 0
  {
    if kind.MessageKind? then x.Sub? && SaysInto(env, kind.message, target, v, x.m, depth) else Means(env, kind, v, x, depth)
  }

  /** The elements of a list, each into an empty message. */
  ghost predicate ListInto(env: Env, kind: Kind, vs: seq<Tree>, xs: seq<Value>, depth: nat)
    decreases 100 - depth, 2, |vs|
  {
    if vs == [] then xs == []
    else if IsDropped(env, kind, vs[0]) then ListInto(env, kind, vs[1..], xs, depth)
    else
      && !(kind.MessageKind? && IsNull(vs[0]))
      && xs != [] && ItemInto(env, kind, None, vs[0], xs[0], depth) && ListInto(env, kind, vs[1..], xs[1..], depth)
  }

  /** Field `i` outside oneofs, given `v`, holds `slot`. A discarded name leaves a plain field alone and unsets an optional one. */
  ghost predicate HoldsInto(env: Env, f: Field, base: Option<Message>, i: nat, v: Tree, slot: Slot, depth: nat)
    decreases 100 - depth, 3, 0
  {
    if IsNull(v) then IsZero(f, slot)
    else
      match f.card
      case Repeated => depth < 100 && (v.Arr? || v.EmptyArr?) && slot.Many? && ListInto(env, f.kind, ElementsIn(v), slot.vs, depth + 1)
      case StringMap => depth < 100 && (v.Obj? || v.EmptyObj?) && slot.Pairs? && MapSays(MembersIn(v), slot.m)
      case Implicit =>
        if IsDropped(env, f.kind, v) then Untouched(f, base, i, slot)
        else if f.kind.MessageKind? then slot.Pointer? && slot.p.Some? && ItemInto(env, f.kind, PointedTo(base, f, i), v, slot.p.value, depth)
        else slot.One? && Means(env, f.kind, v, slot.v, depth)
      case Optional =>
        if IsDropped(env, f.kind, v) then slot == Pointer(None)
        else slot.Pointer? && slot.p.Some? && ItemInto(env, f.kind, PointedTo(base, f, i), v, slot.p.value, depth)
      case Member(_) => false
  }

  ghost predicate FieldInto(env: Env, f: Field, base: Option<Message>, i: nat, v: Tree, m: Message, depth: nat)
    requires i < |m.slots|
    decreases 100 - depth, 4, 0
  {
    if f.card.Member? then
      || IsNull(v)
      || IsDropped(env, f.kind, v)
      || (f.card.oneof in m.oneofs && m.oneofs[f.card.oneof].field == i && ItemInto(env, f.kind, None, v, m.oneofs[f.card.oneof].v, depth))
    else HoldsInto(env, f, base, i, v, m.slots[i], depth)
  }

  ghost predicate EntryInto(env: Env, t: nat, base: Option<Message>, e: Entry, m: Message, depth: nat)
    requires |m.slots| == |env.schema(t).fields|
    decreases 100 - depth, 5, 0
  {
    var fields := env.schema(t).fields;
    && ((forall i :: 0 <= i < |fields| ==> !Named(fields[i], e)) ==> env.discard && Shallow(e.v, depth))
    && (forall i :: 0 <= i < |fields| && Named(fields[i], e) ==> FieldInto(env, fields[i], base, i, e.v, m, depth))
  }

  /** The member gives field `i` of the oneof `o` a value that is not discarded. */
  predicate SetsOneof(env: Env, fields: seq<Field>, e: Entry, i: nat, o: nat) {
    Chooses(fields, e, i, o) && !IsDropped(env, fields[i].kind, e.v)
  }

  ghost predicate IsSet(env: Env, fields: seq<Field>, es: seq<Entry>, o: nat) {
    exists k, i: nat :: 0 <= k < |es| && SetsOneof(env, fields, es[k], i, o)
  }

  /** The oneof `o` holds the choice it held at the start, unless a null for its field has removed it. */
  ghost predicate Remains(fields: seq<Field>, es: seq<Entry>, base: Option<Message>, m: Message, o: nat) {
    var held := base.Some? && o in base.value.oneofs && !NullGiven(fields, es, base.value.oneofs[o].field);
    (o in m.oneofs <==> held) && (held ==> m.oneofs[o] == base.value.oneofs[o])
  }

  predicate NullGiven(fields: seq<Field>, es: seq<Entry>, i: nat) {
    exists k :: 0 <= k < |es| && NullsField(fields, es[k], i)
  }

  predicate NullsField(fields: seq<Field>, e: Entry, i: nat) {
    i < |fields| && Named(fields[i], e) && IsNull(e.v)
  }

  /** The object `v` says `m` into such a target. A oneof that only a discarded name chooses in remains as it was. */
  ghost predicate SaysInto(env: Env, t: nat, target: Option<Message>, v: Tree, m: Message, depth: nat)
    decreases 100 - depth, 0, 0
  {
    var fields, es, base := env.schema(t).fields, MembersIn(v), BaseOf(env.schema(t), target);
    && depth < 100 && (v.Obj? || v.EmptyObj?)
    && |m.slots| == |fields|
    && (forall k :: 0 <= k < |es| ==> EntryInto(env, t, base, es[k], m, depth + 1))
    && (forall j, k :: 0 <= j < k < |es| ==> !Clash(fields, es[j], es[k]))
    && (forall i :: 0 <= i < |fields| && (fields[i].card.Member? || Unmentioned(fields[i], es)) ==> IsZero(fields[i], m.slots[i]))
    && (forall o :: o in m.oneofs ==> Chosen(fields, es, o))
    && (forall o :: Chosen(fields, es, o) && !IsSet(env, fields, es, o) ==> Remains(fields, es, base, m, o))
  }

  // ---------------------------------------------------------------- the decoder, value by value

  /** The target as the model of the decoder has it. */
  lemma BaseIs(mt: MessageType, target: Option<Message>)
    ensures var b := TM.InnerStart(mt, target);
            && Shaped(mt, b) && TargetOk(mt, b)
            && b == if BaseOf(mt, target).Some? then BaseOf(mt, target).value else Fresh(mt)
  {
  }

  lemma SlotsAre(mt: MessageType, target: Option<Message>, i: nat, slot: Slot)
    requires i < |mt.fields|
    ensures var b := TM.InnerStart(mt, target);
            && |b.slots| == |mt.fields|
            && (Untouched(mt.fields[i], BaseOf(mt, target), i, slot) <==> slot == b.slots[i])
            && PointedTo(BaseOf(mt, target), mt.fields[i], i) == Existing(mt.fields[i], b.slots[i])
  {
    BaseIs(mt, target);
    ZeroIs(mt.fields[i], slot);
    hide TargetOk, IsZero;
  }

  lemma {:induction false} ItemIntoMeans(env: Env, kind: Kind, target: Option<Message>, v: Tree, x: Value, depth: nat)
    requires SchemaOk(env.schema) && Valid(v) && KindOk(kind)
    ensures TM.ItemWith(env, kind, target, v, depth).Some? && Stored(TM.ItemWith(env, kind, target, v, depth).value) == x <==>
            ItemInto(env, kind, target, v, x, depth)
    ensures TM.ItemWith(env, kind, target, v, depth) == Some(Unknown) <==> IsDropped(env, kind, v)
    decreases 100 - depth, 1, 0
  {
    hide SchemaOk, M.ScalarOf, TM.ObjectWith, TM.InnerStart, Valid, SaysInto, EnumOk, Means;
    if kind.MessageKind? {
      if x.Sub? {
        ObjectIntoExact(env, kind.message, target, v, x.m, depth);
      }
    } else {
      ScalarMeans(env, kind, v, x, depth);
    }
  }

  lemma ListIntoStep(env: Env, kind: Kind, vs: seq<Tree>, xs: seq<Value>, depth: nat)
    requires vs != []
    ensures ListInto(env, kind, vs, xs, depth) <==>
            if IsDropped(env, kind, vs[0]) then ListInto(env, kind, vs[1..], xs, depth)
            else !(kind.MessageKind? && IsNull(vs[0])) && xs != [] && ItemInto(env, kind, None, vs[0], xs[0], depth) && ListInto(env, kind, vs[1..], xs[1..], depth)
  {
    hide ItemInto, IsDropped;
  }

  lemma ListIntoEnd(env: Env, kind: Kind, xs: seq<Value>, depth: nat)
    ensures ListInto(env, kind, [], xs, depth) <==> xs == []
  {
  }

  lemma {:induction false} ListIntoMeans(env: Env, kind: Kind, e: Elems, xs: seq<Value>, depth: nat)
    requires SchemaOk(env.schema) && ValidElems(e) && KindOk(kind)
    ensures TM.ListWith(env, kind, e, depth) == Some(xs) <==> ListInto(env, kind, ElementsOf(e), xs, depth)
    decreases 100 - depth, 2, e, 1
  {
    assert Valid(e.v) && (e.MoreElems? ==> ValidElems(e.tail));
    Words();
    hide SchemaOk, TM.ItemWith, TM.ListWith, M.Joined, Valid, KindOk, ListInto, ElementsOf, ItemInto, IsDropped, Stored;
    TM.ListWithUnfolds(env, kind, e, depth);
    ElemsHead(e);
    var vs := ElementsOf(e);
    ListIntoStep(env, kind, vs, xs, depth);
    ItemIntoMeans(env, kind, None, e.v, if xs == [] then Num(0) else xs[0], depth);
    var tail := if e.MoreElems? then TM.ListWith(env, kind, e.tail, depth) else Some([]);
    JoinedIs(TM.ItemWith(env, kind, None, e.v, depth), tail, xs);
    TailIntoMeans(env, kind, e, xs, depth);
    if xs != [] {
      TailIntoMeans(env, kind, e, xs[1..], depth);
    }
  }

  lemma {:induction false} TailIntoMeans(env: Env, kind: Kind, e: Elems, xs: seq<Value>, depth: nat)
    requires SchemaOk(env.schema) && ValidElems(e) && KindOk(kind)
    ensures (if e.MoreElems? then TM.ListWith(env, kind, e.tail, depth) else Some([])) == Some(xs) <==>
            ListInto(env, kind, ElementsOf(e)[1..], xs, depth)
    decreases 100 - depth, 2, e, 0
  {
    assert e.MoreElems? ==> ValidElems(e.tail);
    hide SchemaOk, TM.ListWith, KindOk, ListInto, ElementsOf;
    ElemsHead(e);
    if e.MoreElems? {
      ListIntoMeans(env, kind, e.tail, xs, depth);
    } else {
      ListIntoEnd(env, kind, xs, depth);
    }
  }

  lemma SinglePayload(env: Env, f: Field, prior: Option<Message>, v: Tree, depth: nat)
    requires Valid(v) && v != Lit(NULL) && (f.card.Implicit? || f.card.Optional?)
    ensures var item := TM.ItemWith(env, f.kind, prior, v, depth);
            TM.PayloadWith(env, f, prior, v, depth) == if item.None? then None else Some(Single(item.value))
  {
    hide TM.ItemWith;
  }

  lemma SingleHolds(env: Env, f: Field, base: Option<Message>, i: nat, v: Tree, slot: Slot, depth: nat)
    requires !IsNull(v) && (f.card.Implicit? || f.card.Optional?)
    ensures HoldsInto(env, f, base, i, v, slot, depth) <==>
            if IsDropped(env, f.kind, v) then (if f.card.Implicit? then Untouched(f, base, i, slot) else slot == Pointer(None))
            else if f.card.Implicit? && !f.kind.MessageKind? then slot.One? && ItemInto(env, f.kind, PointedTo(base, f, i), v, slot.v, depth)
            else slot.Pointer? && slot.p.Some? && ItemInto(env, f.kind, PointedTo(base, f, i), v, slot.p.value, depth)
  {
    DroppedEnum(env, f.kind, v);
    ScalarInto(env, f.kind, PointedTo(base, f, i), v, slot, depth);
    hide IsDropped, Untouched, PointedTo, Means, SaysInto, ItemInto;
  }

  lemma SingleSlot(f: Field, was: Slot, item: Item, slot: Slot)
    requires f.card.Implicit? || f.card.Optional?
    ensures SlotInto(f, was, Single(item)) == slot <==>
            if item.Unknown? then slot == (if f.card.Optional? then Pointer(None) else was)
            else if f.card.Implicit? && !f.kind.MessageKind? then slot.One? && slot.v == Stored(item)
            else slot.Pointer? && slot.p.Some? && slot.p.value == Stored(item)
  {
    hide Stored;
  }

  /** The value that a slot for one element holds. */
  function ElementOf(slot: Slot): Value {
    if slot.One? then slot.v else if slot.Pointer? && slot.p.Some? then slot.p.value else Num(0)
  }

  lemma ElementIs(slot: Slot)
    ensures slot.One? ==> ElementOf(slot) == slot.v
    ensures slot.Pointer? && slot.p.Some? ==> ElementOf(slot) == slot.p.value
  {
  }

  /** The payload given to field `i`, and what the field holds then. */
  lemma {:induction false} SingleInto(env: Env, mt: MessageType, target: Option<Message>, i: nat, v: Tree, slot: Slot, depth: nat)
    requires SchemaOk(env.schema) && Valid(v) && i < |mt.fields| && KindOk(mt.fields[i].kind) && v != Lit(NULL) && !IsNull(v)
    requires mt.fields[i].card.Implicit? || mt.fields[i].card.Optional?
    ensures var b := TM.InnerStart(mt, target);
            && |b.slots| == |mt.fields|
            && var p := TM.PayloadWith(env, mt.fields[i], Existing(mt.fields[i], b.slots[i]), v, depth);
               (p.Some? && SlotInto(mt.fields[i], b.slots[i], p.value) == slot <==>
                HoldsInto(env, mt.fields[i], BaseOf(mt, target), i, v, slot, depth))
    decreases 100 - depth, 2, 0
  {
    hide *;
    var f, prior := mt.fields[i], PointedTo(BaseOf(mt, target), mt.fields[i], i);
    SlotsAre(mt, target, i, slot);
    SinglePayload(env, f, prior, v, depth);
    SingleHolds(env, f, BaseOf(mt, target), i, v, slot, depth);
    ElementIs(slot);
    ItemIntoMeans(env, f.kind, prior, v, ElementOf(slot), depth);
    var item := TM.ItemWith(env, f.kind, prior, v, depth);
    if item.Some? {
      SingleSlot(f, TM.InnerStart(mt, target).slots[i], item.value, slot);
    }
  }

  lemma DroppedEnum(env: Env, kind: Kind, v: Tree)
    ensures IsDropped(env, kind, v) ==> !kind.MessageKind?
  {
  }

  lemma ScalarInto(env: Env, kind: Kind, target: Option<Message>, v: Tree, slot: Slot, depth: nat)
    ensures !kind.MessageKind? && slot.One? ==> (ItemInto(env, kind, target, v, slot.v, depth) <==> Means(env, kind, v, slot.v, depth))
  {
    hide Means;
  }

  lemma {:induction false} RepeatedInto(env: Env, f: Field, prior: Option<Message>, base: Option<Message>, i: nat, v: Tree, was: Slot, slot: Slot, depth: nat)
    requires SchemaOk(env.schema) && Valid(v) && KindOk(f.kind) && f.card.Repeated? && v != Lit(NULL) && !IsNull(v)
    ensures var p := TM.PayloadWith(env, f, prior, v, depth);
            p.Some? && SlotInto(f, was, p.value) == slot <==> HoldsInto(env, f, base, i, v, slot, depth)
    decreases 100 - depth, 2, 0
  {
    hide SchemaOk, TM.ListWith, KindOk, ListInto, ElementsOf, Stored, IsNull;
    if slot.Many? && v.Arr? {
      assert ValidElems(v.elems);
      if depth < 100 {
        ListIntoMeans(env, f.kind, v.elems, slot.vs, depth + 1);
      }
    } else if slot.Many? && v.EmptyArr? {
      ListIntoEnd(env, f.kind, slot.vs, depth + 1);
    }
  }

  lemma MapInto(env: Env, f: Field, prior: Option<Message>, base: Option<Message>, i: nat, v: Tree, was: Slot, slot: Slot, depth: nat)
    requires Valid(v) && f.card.StringMap? && v != Lit(NULL) && !IsNull(v)
    ensures var p := TM.PayloadWith(env, f, prior, v, depth);
            p.Some? && SlotInto(f, was, p.value) == slot <==> HoldsInto(env, f, base, i, v, slot, depth)
  {
    hide M.PairsOf, MapSays, EntriesOf, Stored, IsNull;
    if slot.Pairs? && (v.Obj? || v.EmptyObj?) {
      MapMeans(v, slot.m);
    }
  }

  lemma NullInto(env: Env, f: Field, prior: Option<Message>, base: Option<Message>, i: nat, v: Tree, was: Slot, slot: Slot, depth: nat)
    requires Valid(v) && (v == Lit(NULL) || IsNull(v))
    ensures v == Lit(NULL) && IsNull(v)
    ensures var p := TM.PayloadWith(env, f, prior, v, depth);
            p.Some? && SlotInto(f, was, p.value) == slot <==> HoldsInto(env, f, base, i, v, slot, depth)
  {
    Words();
    ZeroIs(f, slot);
    hide ZeroSlot, IsZero, Ascii;
  }

  lemma {:induction false} PayloadInto(env: Env, mt: MessageType, target: Option<Message>, i: nat, v: Tree, slot: Slot, depth: nat)
    requires SchemaOk(env.schema) && Valid(v) && i < |mt.fields| && KindOk(mt.fields[i].kind) && !mt.fields[i].card.Member?
    ensures var b := TM.InnerStart(mt, target);
            && |b.slots| == |mt.fields|
            && var p := TM.PayloadWith(env, mt.fields[i], Existing(mt.fields[i], b.slots[i]), v, depth);
               (p.Some? && SlotInto(mt.fields[i], b.slots[i], p.value) == slot <==>
                HoldsInto(env, mt.fields[i], BaseOf(mt, target), i, v, slot, depth))
    decreases 100 - depth, 3, 0
  {
    hide *;
    SlotsAre(mt, target, i, slot);
    var f, b, base := mt.fields[i], TM.InnerStart(mt, target), BaseOf(mt, target);
    if v == Lit(NULL) || IsNull(v) {
      NullInto(env, f, Existing(f, b.slots[i]), base, i, v, b.slots[i], slot, depth);
    } else if f.card.Repeated? {
      RepeatedInto(env, f, Existing(f, b.slots[i]), base, i, v, b.slots[i], slot, depth);
    } else if f.card.StringMap? {
      MapInto(env, f, Existing(f, b.slots[i]), base, i, v, b.slots[i], slot, depth);
    } else {
      SingleInto(env, mt, target, i, v, slot, depth);
    }
  }

  // ---------------------------------------------------------------- the decoder, member by member

  function ActWith(env: Env, t: nat, b: Message, e: Entry, depth: nat): Option<A.Act>
    requires Shaped(env.schema(t), b)
  {
    if ValidEntry(e) then TM.MemberWith(env, t, b, Meaning(e.head.key), e.v, depth) else None
  }

  /** The acts of an object are those of its members, one by one. */
  lemma {:induction false} ActsWithByEntry(env: Env, t: nat, b: Message, es: seq<Entry>, depth: nat)
    requires es != [] && ValidEntries(es) && ValidMembers(MembersFrom(es)) && Shaped(env.schema(t), b)
    ensures var acts := TM.ActsWith(env, t, b, MembersFrom(es), depth);
            && (acts.Some? <==> forall i :: 0 <= i < |es| ==> ActWith(env, t, b, es[i], depth).Some?)
            && (acts.Some? ==> |acts.value| == |es| && forall i :: 0 <= i < |es| ==> ActWith(env, t, b, es[i], depth) == Some(acts.value[i]))
  {
    hide TM.MemberWith, Meaning;
    assert ValidEntry(es[0]);
    if |es| > 1 {
      assert ValidMembers(MembersFrom(es[1..]));
      ActsWithByEntry(env, t, b, es[1..], depth);
    }
  }

  lemma UnknownActWith(env: Env, t: nat, b: Message, e: Entry, depth: nat)
    requires SchemaOk(env.schema) && ValidEntry(e) && Find(env.schema(t), Meaning(e.head.key)).None? && Shaped(env.schema(t), b)
    ensures forall i :: 0 <= i < |env.schema(t).fields| ==> !Named(env.schema(t).fields[i], e)
    ensures ActWith(env, t, b, e, depth) == if env.discard && Shallow(e.v, depth) then Some(A.Skip) else None
  {
    UnknownAct(env, t, e, depth);
    hide SchemaOk, Meaning, Find, TM.PayloadWith, ActOf;
  }

  lemma KnownActWith(env: Env, t: nat, b: Message, e: Entry, depth: nat, i: nat)
    requires SchemaOk(env.schema) && ValidEntry(e) && Find(env.schema(t), Meaning(e.head.key)) == Some(i) && Shaped(env.schema(t), b)
    ensures i < |env.schema(t).fields| && Named(env.schema(t).fields[i], e) && KindOk(env.schema(t).fields[i].kind) && Valid(e.v)
    ensures forall j :: 0 <= j < |env.schema(t).fields| && Named(env.schema(t).fields[j], e) ==> j == i
    ensures var f := env.schema(t).fields[i];
            var p := TM.PayloadWith(env, f, Existing(f, b.slots[i]), e.v, depth);
            ActWith(env, t, b, e, depth) == if p.Some? then Some(A.Assign(i, p.value)) else None
  {
    KnownAct(env, t, e, depth, i);
    hide SchemaOk, Meaning, Find, TM.PayloadWith, ActOf, M.PayloadOf;
  }

  /** The act is for the field of the member, is null where the member is, and discards where its name is discarded. */
  ghost predicate MirrorsInto(env: Env, fields: seq<Field>, e: Entry, a: A.Act) {
    && Mirrors(fields, e, a)
    && (a.Assign? && a.field < |fields| && fields[a.field].card.Member? && !IsNull(e.v) ==> (IsKnown(a.p) <==> !IsDropped(env, fields[a.field].kind, e.v)))
  }

  lemma {:induction false} PayloadMirrors(env: Env, f: Field, prior: Option<Message>, v: Tree, depth: nat)
    requires SchemaOk(env.schema) && Valid(v) && KindOk(f.kind) && TM.PayloadWith(env, f, prior, v, depth).Some?
    ensures var p := TM.PayloadWith(env, f, prior, v, depth).value;
            && (p.Null? <==> IsNull(v))
            && (f.card.Member? && !IsNull(v) ==> (IsKnown(p) <==> !IsDropped(env, f.kind, v)))
    decreases 100 - depth, 2, 0
  {
    Words();
    if f.card.Member? {
      ItemIntoMeans(env, f.kind, prior, v, Num(0), depth);
    }
    hide SchemaOk, TM.ItemWith, TM.ListWith, M.PairsOf, IsDropped, ItemInto, KindOk;
  }

  lemma {:induction false} ActWithMirrors(env: Env, t: nat, b: Message, e: Entry, depth: nat)
    requires SchemaOk(env.schema) && ValidEntry(e) && Shaped(env.schema(t), b) && ActWith(env, t, b, e, depth).Some?
    ensures MirrorsInto(env, env.schema(t).fields, e, ActWith(env, t, b, e, depth).value)
    decreases 100 - depth, 3, 0
  {
    hide SchemaOk, Meaning, Find, TM.PayloadWith, ActWith, Named, Valid, IsNull, KindOk, IsDropped, Existing, IsKnown;
    var i := Find(env.schema(t), Meaning(e.head.key));
    if i.None? {
      UnknownActWith(env, t, b, e, depth);
    } else {
      KnownActWith(env, t, b, e, depth, i.value);
      PayloadMirrors(env, env.schema(t).fields[i.value], Existing(env.schema(t).fields[i.value], b.slots[i.value]), e.v, depth);
    }
  }

  /** The act is done in `m`. */
  ghost predicate DoneInto(mt: MessageType, b: Message, a: A.Act, m: Message)
    requires Shaped(mt, m) && Shaped(mt, b)
  {
    a.Assign? ==>
      && a.field < |mt.fields|
      && if mt.fields[a.field].card.Member? then
           || a.p.Null? || !IsKnown(a.p)
           || (mt.fields[a.field].card.oneof in m.oneofs && m.oneofs[mt.fields[a.field].card.oneof] == A.ChoiceOf(a))
         else m.slots[a.field] == SlotInto(mt.fields[a.field], b.slots[a.field], a.p)
  }

  /** The payload given to a member of a oneof, and what the oneof holds then. */
  lemma {:induction false} ChoiceInto(env: Env, f: Field, v: Tree, x: Value, depth: nat)
    requires SchemaOk(env.schema) && Valid(v) && KindOk(f.kind) && f.card.Member?
    ensures var p := TM.PayloadWith(env, f, None, v, depth);
            && (IsNull(v) ==> p == Some(Null))
            && (!IsNull(v) ==> && (p.Some? ==> p.value.Single? && (IsKnown(p.value) <==> !IsDropped(env, f.kind, v)))
                               && (IsDropped(env, f.kind, v) ==> p.Some?)
                               && (p.Some? && Stored(p.value.item) == x <==> ItemInto(env, f.kind, None, v, x, depth)))
    decreases 100 - depth, 2, 0
  {
    Words();
    ItemIntoMeans(env, f.kind, None, v, x, depth);
    hide SchemaOk, TM.ItemWith, KindOk, ItemInto, Stored, IsDropped;
  }

  lemma NoPrior(f: Field, slot: Slot)
    requires f.card.Member?
    ensures Existing(f, slot) == None
  {
  }

  lemma {:induction false} FieldIntoMeans(env: Env, t: nat, target: Option<Message>, i: nat, v: Tree, m: Message, depth: nat)
    requires SchemaOk(env.schema) && Valid(v) && i < |env.schema(t).fields| && KindOk(env.schema(t).fields[i].kind)
    requires Shaped(env.schema(t), m)
    ensures var mt := env.schema(t);
            var b := TM.InnerStart(mt, target);
            var p := TM.PayloadWith(env, mt.fields[i], Existing(mt.fields[i], b.slots[i]), v, depth);
            p.Some? && DoneInto(mt, b, A.Assign(i, p.value), m) <==> FieldInto(env, mt.fields[i], BaseOf(mt, target), i, v, m, depth)
    decreases 100 - depth, 4, 0
  {
    var mt := env.schema(t);
    var f, b := mt.fields[i], TM.InnerStart(mt, target);
    hide SchemaOk, TM.PayloadWith, KindOk, ItemInto, Stored, IsNull, Valid, HoldsInto, SlotInto, IsKnown, IsDropped, BaseOf, TM.InnerStart, Existing;
    if f.card.Member? {
      var o := f.card.oneof;
      NoPrior(f, b.slots[i]);
      ChoiceInto(env, f, v, if o in m.oneofs then m.oneofs[o].v else Num(0), depth);
      NullKnown(v);
    } else {
      PayloadInto(env, mt, target, i, v, m.slots[i], depth);
    }
  }

  lemma NullKnown(v: Tree)
    ensures IsKnown(Null)
  {
  }

  lemma {:induction false} EntryIntoMeans(env: Env, t: nat, target: Option<Message>, e: Entry, m: Message, depth: nat)
    requires SchemaOk(env.schema) && ValidEntry(e) && Shaped(env.schema(t), m)
    ensures var b := TM.InnerStart(env.schema(t), target);
            ActWith(env, t, b, e, depth).Some? && DoneInto(env.schema(t), b, ActWith(env, t, b, e, depth).value, m) <==>
            EntryInto(env, t, BaseOf(env.schema(t), target), e, m, depth)
    decreases 100 - depth, 5, 0
  {
    hide SchemaOk, Meaning, Find, TM.PayloadWith, ActWith, Named, Valid, IsNull, KindOk, FieldInto, SlotInto, IsKnown, A.ChoiceOf, Shallow, BaseOf,
         TM.InnerStart, Existing;
    var b := TM.InnerStart(env.schema(t), target);
    var i := Find(env.schema(t), Meaning(e.head.key));
    if i.None? {
      UnknownActWith(env, t, b, e, depth);
    } else {
      KnownActWith(env, t, b, e, depth, i.value);
      FieldIntoMeans(env, t, target, i.value, e.v, m, depth);
    }
  }

  // ---------------------------------------------------------------- the decoder, object by object

  ghost predicate AllMirrorInto(env: Env, fields: seq<Field>, es: seq<Entry>, acts: seq<A.Act>) {
    |acts| == |es| && forall k :: 0 <= k < |es| ==> MirrorsInto(env, fields, es[k], acts[k])
  }

  lemma MirrorsAll(env: Env, fields: seq<Field>, es: seq<Entry>, acts: seq<A.Act>)
    requires AllMirrorInto(env, fields, es, acts)
    ensures AllMirror(fields, es, acts)
  {
    hide Mirrors;
  }

  ghost predicate AllDoneInto(mt: MessageType, b: Message, acts: seq<A.Act>, m: Message)
    requires Shaped(mt, m) && Shaped(mt, b)
  {
    forall k :: 0 <= k < |acts| ==> DoneInto(mt, b, acts[k], m)
  }

  /** What the object says besides what its members say one by one. */
  ghost predicate ElsewhereInto(env: Env, fields: seq<Field>, es: seq<Entry>, base: Option<Message>, m: Message)
    requires |m.slots| == |fields|
  {
    && (forall i :: 0 <= i < |fields| && (fields[i].card.Member? || Unmentioned(fields[i], es)) ==> IsZero(fields[i], m.slots[i]))
    && (forall o :: o in m.oneofs ==> Chosen(fields, es, o))
    && (forall o :: Chosen(fields, es, o) && !IsSet(env, fields, es, o) ==> Remains(fields, es, base, m, o))
  }

  lemma SetsIs(env: Env, mt: MessageType, e: Entry, a: A.Act, i: nat, o: nat)
    requires MirrorsInto(env, mt.fields, e, a)
    ensures SetsOneof(env, mt.fields, e, i, o) <==> Sets(mt, a, o) && a.field == i
  {
    PopulatesIs(mt, e, a, i, o);
    hide Mirrors, IsKnown, IsDropped, IsNull, Named;
  }

  lemma SetAssigns(mt: MessageType, a: A.Act, o: nat)
    requires Sets(mt, a, o)
    ensures a.Assign?
  {
  }

  lemma SetIs(env: Env, mt: MessageType, es: seq<Entry>, acts: seq<A.Act>, o: nat)
    requires AllMirrorInto(env, mt.fields, es, acts)
    ensures IsSet(env, mt.fields, es, o) <==> exists a :: a in acts && Sets(mt, a, o)
  {
    hide SetsOneof, Sets, MirrorsInto;
    if k, i: nat :| 0 <= k < |es| && SetsOneof(env, mt.fields, es[k], i, o) {
      SetsIs(env, mt, es[k], acts[k], i, o);
      assert acts[k] in acts;
    }
    if a :| a in acts && Sets(mt, a, o) {
      var k :| 0 <= k < |acts| && acts[k] == a;
      SetAssigns(mt, a, o);
      SetsIs(env, mt, es[k], acts[k], a.field, o);
    }
  }

  lemma NullsIs(mt: MessageType, e: Entry, a: A.Act, i: nat)
    requires Mirrors(mt.fields, e, a)
    ensures NullsField(mt.fields, e, i) <==> IsNulling(a, i)
  {
    hide Named, IsNull;
  }

  lemma NulledIs(mt: MessageType, es: seq<Entry>, acts: seq<A.Act>, i: nat)
    requires AllMirror(mt.fields, es, acts)
    ensures NullGiven(mt.fields, es, i) <==> Nulled(acts, i)
  {
    hide NullsField, IsNulling, Mirrors;
    if k :| 0 <= k < |es| && NullsField(mt.fields, es[k], i) {
      NullsIs(mt, es[k], acts[k], i);
      assert acts[k] in acts;
    }
    if a :| a in acts && IsNulling(a, i) {
      var k :| 0 <= k < |acts| && acts[k] == a;
      NullsIs(mt, es[k], acts[k], i);
    }
  }

  lemma RemainsIs(mt: MessageType, es: seq<Entry>, acts: seq<A.Act>, target: Option<Message>, m: Message, o: nat)
    requires AllMirror(mt.fields, es, acts)
    ensures Remains(mt.fields, es, BaseOf(mt, target), m, o) <==> AsBefore(TM.InnerStart(mt, target), acts, m.oneofs, o)
  {
    BaseIs(mt, target);
    var b := TM.InnerStart(mt, target);
    FreshChoices(mt);
    hide AllMirror, NullGiven, Nulled, TargetOk, Fresh, TM.InnerStart, BaseOf;
    if o in b.oneofs {
      NulledIs(mt, es, acts, b.oneofs[o].field);
    }
  }

  lemma FreshChoices(mt: MessageType)
    ensures Fresh(mt).oneofs == map[]
  {
  }

  lemma SlotLeft(mt: MessageType, b: Message, acts: seq<A.Act>, m: Message, i: nat)
    requires Shaped(mt, m) && Shaped(mt, b) && i < |mt.fields| && AllDoneInto(mt, b, acts, m)
    requires (mt.fields[i].card.Member? || forall a :: a in acts ==> !Assigns(a, i)) ==> m.slots[i] == ZeroSlot(mt.fields[i])
    ensures SlotAfter(mt, b, acts, i, m.slots[i])
  {
    hide SlotInto, ZeroSlot;
    forall a | a in acts && Assigns(a, i) ensures DoneInto(mt, b, a, m) {
      var k :| 0 <= k < |acts| && acts[k] == a;
    }
  }

  lemma SetDone(mt: MessageType, b: Message, acts: seq<A.Act>, m: Message, a: A.Act, o: nat)
    requires Shaped(mt, m) && Shaped(mt, b) && AllDoneInto(mt, b, acts, m) && a in acts && Sets(mt, a, o)
    ensures o in m.oneofs && m.oneofs[o] == A.ChoiceOf(a)
  {
    var k :| 0 <= k < |acts| && acts[k] == a;
    assert DoneInto(mt, b, acts[k], m);
    hide A.ChoiceOf;
  }

  lemma UnassignedIs(mt: MessageType, es: seq<Entry>, acts: seq<A.Act>, i: nat)
    requires AllMirror(mt.fields, es, acts) && i < |mt.fields|
    ensures Unmentioned(mt.fields[i], es) <==> forall a :: a in acts ==> !Assigns(a, i)
  {
    UnmentionedIs(mt, es, acts, i);
    hide Unmentioned, AllMirror;
  }

  lemma LeftDone(mt: MessageType, b: Message, acts: seq<A.Act>, m: Message)
    requires Shaped(mt, b) && Leaves(mt, b, acts, m) && forall a :: a in acts ==> A.Typed(mt, a)
    ensures AllDoneInto(mt, b, acts, m)
  {
    hide SlotInto, ZeroSlot, A.ChoiceOf, IsKnown;
    forall k | 0 <= k < |acts| ensures DoneInto(mt, b, acts[k], m) {
      var a := acts[k];
      assert a in acts && A.Typed(mt, a);
      if a.Assign? {
        assert SlotAfter(mt, b, acts, a.field, m.slots[a.field]) && Assigns(a, a.field);
        if mt.fields[a.field].card.Member? && !a.p.Null? && IsKnown(a.p) {
          assert OneofFinal(mt, b, acts, m.oneofs, mt.fields[a.field].card.oneof);
          assert Sets(mt, a, mt.fields[a.field].card.oneof);
        }
      }
    }
  }

  lemma OneofsSame(env: Env, mt: MessageType, target: Option<Message>, es: seq<Entry>, acts: seq<A.Act>, m: Message, o: nat)
    requires AllMirrorInto(env, mt.fields, es, acts)
    ensures IsSet(env, mt.fields, es, o) <==> exists a :: a in acts && Sets(mt, a, o)
    ensures Chosen(mt.fields, es, o) <==> exists a :: a in acts && A.Populates(mt, a, o)
    ensures Remains(mt.fields, es, BaseOf(mt, target), m, o) <==> AsBefore(TM.InnerStart(mt, target), acts, m.oneofs, o)
  {
    hide *;
    MirrorsAll(env, mt.fields, es, acts);
    SetIs(env, mt, es, acts, o);
    ChosenIs(mt, es, acts, o);
    RemainsIs(mt, es, acts, target, m, o);
  }

  lemma LeftElsewhere(env: Env, mt: MessageType, target: Option<Message>, es: seq<Entry>, acts: seq<A.Act>, m: Message)
    requires Shaped(mt, m) && AllMirrorInto(env, mt.fields, es, acts) && Leaves(mt, TM.InnerStart(mt, target), acts, m)
    ensures ElsewhereInto(env, mt.fields, es, BaseOf(mt, target), m)
  {
    var b := TM.InnerStart(mt, target);
    MirrorsAll(env, mt.fields, es, acts);
    hide Unmentioned, Chosen, IsSet, Remains, AsBefore, Sets, A.Populates, ZeroSlot, IsZero, AllMirror, AllMirrorInto, A.ChoiceOf, SlotInto, TM.InnerStart, BaseOf;
    forall i | 0 <= i < |mt.fields| && (mt.fields[i].card.Member? || Unmentioned(mt.fields[i], es)) ensures IsZero(mt.fields[i], m.slots[i]) {
      UnassignedIs(mt, es, acts, i);
      ZeroIs(mt.fields[i], m.slots[i]);
      assert SlotAfter(mt, b, acts, i, m.slots[i]);
    }
    forall o | o in m.oneofs ensures Chosen(mt.fields, es, o) {
      OneofsSame(env, mt, target, es, acts, m, o);
      assert OneofFinal(mt, b, acts, m.oneofs, o);
    }
    forall o | Chosen(mt.fields, es, o) && !IsSet(env, mt.fields, es, o) ensures Remains(mt.fields, es, BaseOf(mt, target), m, o) {
      OneofsSame(env, mt, target, es, acts, m, o);
      assert OneofFinal(mt, b, acts, m.oneofs, o);
    }
  }

  lemma ElsewhereLeaves(env: Env, mt: MessageType, target: Option<Message>, es: seq<Entry>, acts: seq<A.Act>, m: Message)
    requires Shaped(mt, m) && AllMirrorInto(env, mt.fields, es, acts) && forall a :: a in acts ==> A.Typed(mt, a)
    requires AllDoneInto(mt, TM.InnerStart(mt, target), acts, m) && ElsewhereInto(env, mt.fields, es, BaseOf(mt, target), m)
    ensures Leaves(mt, TM.InnerStart(mt, target), acts, m)
  {
    var b := TM.InnerStart(mt, target);
    MirrorsAll(env, mt.fields, es, acts);
    hide Unmentioned, Chosen, IsSet, Remains, AsBefore, Sets, A.Populates, ZeroSlot, IsZero, AllMirror, AllMirrorInto, A.ChoiceOf, SlotInto, AllDoneInto, A.Typed, SlotAfter,
         TM.InnerStart, BaseOf;
    forall i | 0 <= i < |mt.fields| ensures SlotAfter(mt, b, acts, i, m.slots[i]) {
      UnassignedIs(mt, es, acts, i);
      ZeroIs(mt.fields[i], m.slots[i]);
      SlotLeft(mt, b, acts, m, i);
    }
    forall o ensures OneofFinal(mt, b, acts, m.oneofs, o) {
      OneofsSame(env, mt, target, es, acts, m, o);
      forall a | a in acts && Sets(mt, a, o) ensures o in m.oneofs && m.oneofs[o] == A.ChoiceOf(a) {
        SetDone(mt, b, acts, m, a, o);
      }
    }
  }

  /** The acts come to `m` exactly if the object says so. */
  lemma RunIntoMeans(env: Env, mt: MessageType, target: Option<Message>, es: seq<Entry>, acts: seq<A.Act>, m: Message)
    requires AllMirrorInto(env, mt.fields, es, acts) && forall a :: a in acts ==> A.Typed(mt, a)
    ensures var b := TM.InnerStart(mt, target);
            var r := TM.RunInto(mt, acts, Decoded(b, {}, {}));
            (r.Some? && TM.Cleared(mt, r.value) == m) <==>
              && |m.slots| == |mt.fields|
              && (forall j, k :: 0 <= j < k < |es| ==> !Clash(mt.fields, es[j], es[k]))
              && AllDoneInto(mt, b, acts, m) && ElsewhereInto(env, mt.fields, es, BaseOf(mt, target), m)
  {
    var b := TM.InnerStart(mt, target);
    BaseIs(mt, target);
    MirrorsAll(env, mt.fields, es, acts);
    LeavesShaped(mt, b, acts, m);
    hide TM.RunInto, A.NoDuplicates, Leaves, A.Typed, Clash, AllMirror, AllMirrorInto, AllDoneInto, ElsewhereInto, TargetOk, TM.Cleared, BaseOf, TM.InnerStart;
    RunIntoExact(mt, b, acts, m);
    DuplicatesAre(mt, es, acts);
    if |m.slots| == |mt.fields| {
      if Leaves(mt, b, acts, m) {
        LeftDone(mt, b, acts, m);
        LeftElsewhere(env, mt, target, es, acts, m);
      }
      if AllDoneInto(mt, b, acts, m) && ElsewhereInto(env, mt.fields, es, BaseOf(mt, target), m) {
        ElsewhereLeaves(env, mt, target, es, acts, m);
      }
    }
  }

  lemma LeavesShaped(mt: MessageType, b: Message, acts: seq<A.Act>, m: Message)
    requires Shaped(mt, b)
    ensures Leaves(mt, b, acts, m) ==> |m.slots| == |mt.fields|
  {
    hide SlotAfter, OneofFinal;
  }

  ghost predicate AllSayInto(env: Env, t: nat, base: Option<Message>, es: seq<Entry>, m: Message, depth: nat)
    requires |m.slots| == |env.schema(t).fields|
  {
    forall k :: 0 <= k < |es| ==> EntryInto(env, t, base, es[k], m, depth)
  }

  lemma SaysIntoUnfolds(env: Env, t: nat, target: Option<Message>, v: Tree, m: Message, depth: nat)
    ensures var fields, es, base := env.schema(t).fields, MembersIn(v), BaseOf(env.schema(t), target);
            SaysInto(env, t, target, v, m, depth) <==>
              && depth < 100 && (v.Obj? || v.EmptyObj?) && |m.slots| == |fields|
              && AllSayInto(env, t, base, es, m, depth + 1)
              && (forall j, k :: 0 <= j < k < |es| ==> !Clash(fields, es[j], es[k]))
              && ElsewhereInto(env, fields, es, base, m)
  {
    hide EntryInto, Clash, Chosen, Unmentioned, IsZero, MembersIn, IsSet, Remains, BaseOf;
  }

  lemma {:induction false} EntriesIntoMean(env: Env, t: nat, target: Option<Message>, es: seq<Entry>, m: Message, depth: nat)
    requires SchemaOk(env.schema) && ValidEntries(es) && Shaped(env.schema(t), m)
    ensures var b := TM.InnerStart(env.schema(t), target);
            (forall k :: 0 <= k < |es| ==> ActWith(env, t, b, es[k], depth).Some? && DoneInto(env.schema(t), b, ActWith(env, t, b, es[k], depth).value, m)) <==>
            AllSayInto(env, t, BaseOf(env.schema(t), target), es, m, depth)
    decreases 100 - depth, 6, 0
  {
    hide SchemaOk, ActWith, DoneInto, EntryInto, ValidEntry, BaseOf, TM.InnerStart;
    var b := TM.InnerStart(env.schema(t), target);
    forall k | 0 <= k < |es|
      ensures ActWith(env, t, b, es[k], depth).Some? && DoneInto(env.schema(t), b, ActWith(env, t, b, es[k], depth).value, m) <==>
              EntryInto(env, t, BaseOf(env.schema(t), target), es[k], m, depth)
    {
      EntryIntoMeans(env, t, target, es[k], m, depth);
    }
  }

  lemma ObjectIsRun(env: Env, t: nat, b: Message, v: Tree, depth: nat)
    requires Valid(v) && (v.Obj? || v.EmptyObj?) && depth < 100 && Shaped(env.schema(t), b)
    ensures v.EmptyObj? ==> TM.ObjectWith(env, t, b, v, depth) == Some(TM.Cleared(env.schema(t), Decoded(b, {}, {})))
    ensures v.Obj? ==> ValidMembers(v.members)
    ensures v.Obj? ==>
              var acts := TM.ActsWith(env, t, b, v.members, depth + 1);
              if acts.None? then TM.ObjectWith(env, t, b, v, depth).None?
              else
                && (forall a :: a in acts.value ==> A.Typed(env.schema(t), a))
                && var r := TM.RunInto(env.schema(t), acts.value, Decoded(b, {}, {}));
                   TM.ObjectWith(env, t, b, v, depth) == if r.None? then None else Some(TM.Cleared(env.schema(t), r.value))
  {
    TM.ClearAll(env.schema(t), b);
    hide TM.ActsWith, A.Typed, Fresh, TM.RunInto, ClearMissing;
  }

  lemma RunNone(mt: MessageType, b: Message)
    requires Shaped(mt, b)
    ensures TM.RunInto(mt, [], Decoded(b, {}, {})) == Some(Decoded(b, {}, {}))
  {
  }

  /** The acts of an object, if all its members have one. */
  lemma {:induction false} ActsWithAre(env: Env, t: nat, b: Message, v: Tree, depth: nat) returns (acts: Option<seq<A.Act>>)
    requires SchemaOk(env.schema) && Valid(v) && (v.Obj? || v.EmptyObj?) && depth < 100 && Shaped(env.schema(t), b)
    ensures ValidEntries(MembersIn(v))
    ensures acts.None? ==> TM.ObjectWith(env, t, b, v, depth).None? && exists k :: 0 <= k < |MembersIn(v)| && ActWith(env, t, b, MembersIn(v)[k], depth + 1).None?
    ensures acts.Some? ==>
              && AllMirrorInto(env, env.schema(t).fields, MembersIn(v), acts.value) && (forall a :: a in acts.value ==> A.Typed(env.schema(t), a))
              && (var r := TM.RunInto(env.schema(t), acts.value, Decoded(b, {}, {}));
                  TM.ObjectWith(env, t, b, v, depth) == if r.None? then None else Some(TM.Cleared(env.schema(t), r.value)))
              && forall k :: 0 <= k < |acts.value| ==> ActWith(env, t, b, MembersIn(v)[k], depth + 1) == Some(acts.value[k])
    decreases 100 - depth, 0, 0
  {
    hide SchemaOk, TM.ObjectWith, ActWith, TM.RunInto, A.Typed, EntriesOf, MirrorsInto, TM.ActsWith, ValidEntry, Valid, TM.Cleared;
    ObjectIsRun(env, t, b, v, depth);
    if v.Obj? {
      ObjMembers(v);
      EntriesValid(v.members);
      ActsWithByEntry(env, t, b, EntriesOf(v.members), depth + 1);
      acts := TM.ActsWith(env, t, b, v.members, depth + 1);
      if acts.Some? {
        forall k | 0 <= k < |acts.value| ensures MirrorsInto(env, env.schema(t).fields, MembersIn(v)[k], acts.value[k]) {
          ActWithMirrors(env, t, b, MembersIn(v)[k], depth + 1);
        }
      }
    } else {
      RunNone(env.schema(t), b);
      acts := Some([]);
    }
  }

  lemma AllDoneIntoIs(env: Env, t: nat, b: Message, es: seq<Entry>, acts: seq<A.Act>, m: Message, depth: nat)
    requires Shaped(env.schema(t), m) && Shaped(env.schema(t), b) && AllMirrorInto(env, env.schema(t).fields, es, acts)
    requires forall k :: 0 <= k < |acts| ==> ActWith(env, t, b, es[k], depth) == Some(acts[k])
    ensures AllDoneInto(env.schema(t), b, acts, m) <==>
            forall k :: 0 <= k < |es| ==> ActWith(env, t, b, es[k], depth).Some? && DoneInto(env.schema(t), b, ActWith(env, t, b, es[k], depth).value, m)
  {
    hide DoneInto, ActWith, MirrorsInto;
  }

  lemma NoMeaningInto(env: Env, t: nat, b: Message, v: Tree, depth: nat)
    requires Valid(v) && Shaped(env.schema(t), b)
    ensures depth >= 100 || (!v.Obj? && !v.EmptyObj?) ==> TM.ObjectWith(env, t, b, v, depth).None?
  {
    hide TM.ActsWith;
  }

  /** The table decoder's meaning of an object is what the object says into its target, nothing more and nothing less. */
  lemma {:induction false} ObjectIntoExact(env: Env, t: nat, target: Option<Message>, v: Tree, m: Message, depth: nat)
    requires SchemaOk(env.schema) && Valid(v)
    ensures TM.ObjectWith(env, t, TM.InnerStart(env.schema(t), target), v, depth) == Some(m) <==> SaysInto(env, t, target, v, m, depth)
    decreases 100 - depth, 0, 1
  {
    hide *;
    var b := TM.InnerStart(env.schema(t), target);
    BaseIs(env.schema(t), target);
    SaysIntoUnfolds(env, t, target, v, m, depth);
    NoMeaningInto(env, t, b, v, depth);
    if depth < 100 && (v.Obj? || v.EmptyObj?) {
      var mt, es := env.schema(t), MembersIn(v);
      var acts := ActsWithAre(env, t, b, v, depth);
      ShapedIs(mt, m);
      if |m.slots| == |mt.fields| {
        EntriesIntoMean(env, t, target, es, m, depth + 1);
        if acts.Some? {
          RunIntoMeans(env, mt, target, es, acts.value, m);
          AllDoneIntoIs(env, t, b, es, acts.value, m, depth + 1);
        }
      } else if acts.Some? {
        RunIntoMeans(env, mt, target, es, acts.value, m);
      }
    }
  }

  // ---------------------------------------------------------------- whole inputs

  /** `s` is blank, then the text of an object that says `m` into the target, then `rest`. */
  ghost predicate ReadsInto(env: Env, t: nat, target: Message, s: bytes, m: Message, rest: bytes, depth: nat) {
    exists w, v :: Blank(w) && Valid(v) && s == w + TreeTo(v, rest) && SaysInto(env, t, Some(target), v, m, depth)
  }

  lemma TargetStarts(mt: MessageType, target: Message)
    requires Shaped(mt, target) && TargetOk(mt, target)
    ensures TM.InnerStart(mt, Some(target)) == TM.Start(mt, target)
  {
  }

  lemma TreeReads(env: Env, t: nat, target: Message, w: bytes, v: Tree, rest: bytes, m: Message, depth: nat)
    requires SchemaOk(env.schema) && Shaped(env.schema(t), target) && TargetOk(env.schema(t), target) && AllWs(w) && Valid(v)
    ensures IntoMessage(env, t, target, w + TreeTo(v, rest), depth) == Ok(m, rest) <==> SaysInto(env, t, Some(target), v, m, depth)
  {
    hide *;
    TM.IntoIs(env, t, target, w, v, rest, depth);
    TargetStarts(env.schema(t), target);
    ObjectIntoExact(env, t, Some(target), v, m, depth);
    M.LiftCases(TM.ObjectWith(env, t, TM.Start(env.schema(t), target), v, depth), rest);
  }

  lemma TextOfInto(env: Env, t: nat, target: Message, s: bytes, depth: nat) returns (w: bytes, v: Tree)
    requires SchemaOk(env.schema) && Shaped(env.schema(t), target) && TargetOk(env.schema(t), target) && IntoMessage(env, t, target, s, depth).Ok?
    ensures AllWs(w) && Valid(v) && s == w + TreeTo(v, IntoMessage(env, t, target, s, depth).rest)
  {
    MessageEnds(env, t, target, s, depth);
    hide SchemaOk, TargetOk, IntoMessage, SlowMessage, TreeTo, Valid, AllWs;
    w, v := G.AcceptedTree(env, t, s, depth);
  }

  /** The table decoder reads exactly what the text says into the target, discarding or not. */
  lemma IntoReads(env: Env, t: nat, target: Message, s: bytes, m: Message, rest: bytes, depth: nat)
    requires SchemaOk(env.schema) && Shaped(env.schema(t), target) && TargetOk(env.schema(t), target)
    ensures IntoMessage(env, t, target, s, depth) == Ok(m, rest) <==> ReadsInto(env, t, target, s, m, rest, depth)
  {
    hide SchemaOk, TargetOk, IntoMessage, SaysInto, TreeTo, Valid, AllWs, Blank;
    if IntoMessage(env, t, target, s, depth) == Ok(m, rest) {
      var w, v := TextOfInto(env, t, target, s, depth);
      TreeReads(env, t, target, w, v, rest, m, depth);
      BlankIsWs(w);
    }
    if w, v :| Blank(w) && Valid(v) && s == w + TreeTo(v, rest) && SaysInto(env, t, Some(target), v, m, depth) {
      BlankIsWs(w);
      TreeReads(env, t, target, w, v, rest, m, depth);
    }
  }

  /**
   Unmarshal through a table accepts an input exactly if it is one object with nothing but white space
   around it, and leaves in the target the one message that the object says.
   */
  lemma UnmarshalTableReads(env: Env, t: nat, target: Message, data: bytes, m: Message)
    requires SchemaOk(env.schema) && Shaped(env.schema(t), target) && TargetOk(env.schema(t), target)
    ensures UnmarshalTable(env, t, target, data) == Some(m) <==> exists x :: Blank(x) && ReadsInto(env, t, target, data, m, x, 0)
  {
    hide SchemaOk, TargetOk, IntoMessage, ReadsInto, Blank, Finish;
    var r := IntoMessage(env, t, target, data, 0);
    FinishIs(r, m);
    if r.Ok? {
      IntoReads(env, t, target, data, m, r.rest, 0);
    }
    if x :| Blank(x) && ReadsInto(env, t, target, data, m, x, 0) {
      IntoReads(env, t, target, data, m, x, 0);
    }
  }

  /** `data` is an object that means `m` into what the target holds at the start, with white space around it. */
  ghost predicate DenotesInto(env: Env, t: nat, target: Message, data: bytes, m: Message)
    requires Shaped(env.schema(t), target)
  {
    exists w, v, x :: AllWs(w) && AllWs(x) && Valid(v) && data == w + TreeTo(v, x) &&
                      TM.ObjectWith(env, t, TM.Start(env.schema(t), target), v, 0) == Some(m)
  }

  /** The same, with the meaning of the parsed object. */
  lemma UnmarshalTableDenotes(env: Env, t: nat, target: Message, data: bytes, m: Message)
    requires SchemaOk(env.schema) && Shaped(env.schema(t), target) && TargetOk(env.schema(t), target)
    ensures UnmarshalTable(env, t, target, data) == Some(m) <==> DenotesInto(env, t, target, data, m)
  {
    TargetStarts(env.schema(t), target);
    hide SchemaOk, TargetOk, UnmarshalTable, SaysInto, TreeTo, Valid, AllWs, Blank, TM.ObjectWith, TM.Start, TM.InnerStart;
    UnmarshalTableReads(env, t, target, data, m);
    if x :| Blank(x) && ReadsInto(env, t, target, data, m, x, 0) {
      var w, v :| Blank(w) && Valid(v) && data == w + TreeTo(v, x) && SaysInto(env, t, Some(target), v, m, 0);
      BlankIsWs(w);
      BlankIsWs(x);
      ObjectIntoExact(env, t, Some(target), v, m, 0);
    }
    if w, v, x :| AllWs(w) && AllWs(x) && Valid(v) && data == w + TreeTo(v, x) &&
                  TM.ObjectWith(env, t, TM.Start(env.schema(t), target), v, 0) == Some(m) {
      BlankIsWs(w);
      BlankIsWs(x);
      ObjectIntoExact(env, t, Some(target), v, m, 0);
      assert ReadsInto(env, t, target, data, m, x, 0);
    }
  }

  // ---------------------------------------------------------------- what is left out

  lemma SaysIntoZero(env: Env, t: nat, target: Option<Message>, v: Tree, m: Message, depth: nat)
    requires SaysInto(env, t, target, v, m, depth)
    ensures |m.slots| == |env.schema(t).fields| && LeavesZero(env.schema(t).fields, MembersIn(v), m)
  {
    var fields, es, base := env.schema(t).fields, MembersIn(v), BaseOf(env.schema(t), target);
    hide IsZero, Means, Clash, Chosen, Named, IsNull, BaseOf, IsSet, Remains;
    forall i | 0 <= i < |fields| && OnlyNull(fields[i], es) ensures IsZero(fields[i], m.slots[i]) {
      if !fields[i].card.Member? && !Unmentioned(fields[i], es) {
        var k :| 0 <= k < |es| && Named(fields[i], es[k]);
        assert EntryInto(env, t, base, es[k], m, depth + 1);
        assert FieldInto(env, fields[i], base, i, es[k].v, m, depth + 1);
      }
    }
  }

  /** After any object, and whatever its target held, the table decoder leaves zero where the members say nothing or null. */
  lemma ZeroLeftInto(env: Env, t: nat, target: Message, w: bytes, es: seq<Entry>, k: bytes, depth: nat)
    requires SchemaOk(env.schema) && Shaped(env.schema(t), target) && TargetOk(env.schema(t), target) && AllWs(w) && ValidEntries(es)
    requires IntoMessage(env, t, target, ObjectText(w, es, k), depth).Ok?
    ensures var m := IntoMessage(env, t, target, ObjectText(w, es, k), depth).value;
            |m.slots| == |env.schema(t).fields| && LeavesZero(env.schema(t).fields, es, m)
  {
    hide SchemaOk, TargetOk, IntoMessage, SlowMessage, ValidEntries, AllWs, SaysInto, TreeTo, Valid, ObjectOf, LeavesZero;
    ObjectValid(es);
    MembersAgain(es);
    MessageEnds(env, t, target, ObjectText(w, es, k), depth);
    M.MessageIs(env, t, w, ObjectOf(es), k, depth);
    M.LiftCases(M.MessageOf(env, t, ObjectOf(es), depth), k);
    hide M.MessageOf, M.Lift;
    var m := IntoMessage(env, t, target, ObjectText(w, es, k), depth).value;
    TreeReads(env, t, target, w, ObjectOf(es), k, m, depth);
    SaysIntoZero(env, t, Some(target), ObjectOf(es), m, depth);
  }
}
