/**
 When the table decoder leaves another message than the generated one. Both accept the same texts,
 so what can differ is the message, and it does exactly when an unknown enum name that is discarded
 lands in a field that does not hold zero already.
 */
module Traces {
  import opened Bytes
  import opened Json
  import opened Schema
  import opened Generated
  import opened Acts
  import opened Meanings
  import opened Table
  import opened TableMeanings

  // ---------------------------------------------------------------- the condition

  /** Field `i` holds the zero that generated code stores for an unknown enum name. */
  predicate HoldsZero(mt: MessageType, i: nat, base: Message)
    requires i < |mt.fields| && Shaped(mt, base)
  {
    match mt.fields[i].card
    case Implicit => base.slots[i] == One(Num(0))
    case Member(o) => o in base.oneofs && base.oneofs[o] == Choice(i, Num(0))
    case _ => false
  }

  /** The value is a name that this singular enum field does not know. */
  predicate Lands(f: Field, v: Tree)
    requires Valid(v)
  {
    && !f.card.StringMap? && !f.card.Repeated? && f.kind.EnumKind?
    && v.Str? && FindName(f.kind.values, Meaning(v.chars)).None?
  }

  /** Every unknown enum name in the object, at any nesting, lands where zero is held already. */
  predicate QuietObject(schema: Schema, t: nat, base: Message, v: Tree)
    requires Valid(v) && Shaped(schema(t), base)
    decreases v, 0
  {
    v.Obj? ==> QuietMembers(schema, t, base, v.members)
  }

  predicate QuietMembers(schema: Schema, t: nat, base: Message, ms: Members)
    requires ValidMembers(ms) && Shaped(schema(t), base)
    decreases ms, 3
  {
    && QuietMember(schema, t, base, Meaning(ms.head.key), ms.v)
    && (ms.MoreMembers? ==> QuietMembers(schema, t, base, ms.tail))
  }

  predicate QuietMember(schema: Schema, t: nat, base: Message, key: bytes, v: Tree)
    requires Valid(v) && Shaped(schema(t), base)
    decreases v, 2
  {
    var mt := schema(t);
    match Find(mt, key)
    case None => true
    case Some(i) =>
      if Lands(mt.fields[i], v) then HoldsZero(mt, i, base)
      else QuietPayload(schema, mt.fields[i], Existing(mt.fields[i], base.slots[i]), v)
  }

  predicate QuietPayload(schema: Schema, f: Field, prior: Option<Message>, v: Tree)
    requires Valid(v)
    decreases v, 1
  {
    f.kind.MessageKind? ==>
      match f.card
      case StringMap => true
      case Repeated => v.Arr? ==> QuietElems(schema, f.kind.message, v.elems)
      case _ => QuietObject(schema, f.kind.message, InnerStart(schema(f.kind.message), prior), v)
  }

  predicate QuietElems(schema: Schema, t: nat, e: Elems)
    requires ValidElems(e)
    decreases e, 2
  {
    && QuietObject(schema, t, InnerStart(schema(t), None), e.v)
    && (e.MoreElems? ==> QuietElems(schema, t, e.tail))
  }

  // ---------------------------------------------------------------- one act

  /** The two decoders came to these acts for the same member. */
  predicate Alike(mt: MessageType, a: Act, b: Act) {
    && Typed(mt, a) && a.Assign? == b.Assign?
    && (a.Assign? ==> a.field == b.field && SameForm(a.p, b.p) && (IsUnknown(a.p) ==> IsSingularEnum(mt.fields[a.field])))
  }

  predicate IsUnknown(p: Payload) {
    p.Single? && p.item.Unknown?
  }

  predicate IsSingularEnum(f: Field) {
    f.kind.EnumKind? && !f.card.Repeated? && !f.card.StringMap?
  }

  /** The acts leave the same in their field. */
  predicate QuietAct(mt: MessageType, base: Message, a: Act, b: Act)
    requires Shaped(mt, base) && Alike(mt, a, b)
  {
    a.Assign? ==> if IsUnknown(a.p) then HoldsZero(mt, a.field, base) else a.p == b.p
  }

  /** What the fields seen so far hold is the same on both sides. */
  ghost predicate SameSlots(mt: MessageType, d: Decoded, m: Message)
    requires Shaped(mt, d.m) && Shaped(mt, m)
  {
    forall i :: 0 <= i < |mt.fields| && i in d.seen ==> d.m.slots[i] == m.slots[i]
  }

  predicate SameOneof(d: Decoded, m: Message, o: nat) {
    o in d.seenOneofs ==> o in d.m.oneofs && o in m.oneofs && d.m.oneofs[o] == m.oneofs[o]
  }

  ghost predicate SameOneofs(d: Decoded, m: Message) {
    forall o :: SameOneof(d, m, o)
  }

  /** The slots of the two loops side by side: `d` began with `base`, `m` is the generated decoder's message. */
  ghost predicate PairedSlots(mt: MessageType, base: Message, d: Decoded, m: Message) {
    && Shaped(mt, m) && Shaped(mt, base) && Shaped(mt, d.m) && Untouched(mt, base, d)
    && (forall i :: 0 <= i < |mt.fields| && mt.fields[i].card.Member? ==> d.m.slots[i] == InOneof)
    && (forall i :: 0 <= i < |mt.fields| && (i !in d.seen || mt.fields[i].card.Member?) ==> m.slots[i] == ZeroSlot(mt.fields[i]))
  }

  predicate Proper(mt: MessageType, oneofs: map<nat, Choice>, o: nat) {
    o in oneofs ==> oneofs[o].field < |mt.fields| && mt.fields[oneofs[o].field].card == Member(o)
  }

  /** And a oneof: unless it has been populated it keeps its choice, which only a null can remove. */
  predicate PairedOneof(mt: MessageType, base: Message, d: Decoded, m: Message, o: nat) {
    && Proper(mt, base.oneofs, o) && Proper(mt, d.m.oneofs, o)
    && (o in m.oneofs <==> o in d.seenOneofs)
    && (o in m.oneofs ==> m.oneofs[o].field in d.seen)
    && (o !in d.seenOneofs ==>
          && (o in d.m.oneofs <==> o in base.oneofs && base.oneofs[o].field !in d.seen)
          && (o in d.m.oneofs ==> d.m.oneofs[o] == base.oneofs[o]))
  }

  ghost predicate PairedOneofs(mt: MessageType, base: Message, d: Decoded, m: Message) {
    forall o :: PairedOneof(mt, base, d, m, o)
  }

  lemma StartPaired(mt: MessageType, base: Message)
    requires TargetOk(mt, base)
    ensures var d, m := Decoded(base, {}, {}), Fresh(mt);
            PairedSlots(mt, base, d, m) && PairedOneofs(mt, base, d, m) && SameSlots(mt, d, m) && SameOneofs(d, m)
  {
  }

  lemma EndSlots(mt: MessageType, base: Message, d: Decoded, m: Message)
    requires PairedSlots(mt, base, d, m)
    ensures Cleared(mt, d).slots == m.slots <==> SameSlots(mt, d, m)
  {
    var c := Cleared(mt, d);
    if SameSlots(mt, d, m) {
      assert c.slots == m.slots;
    }
    if c.slots == m.slots {
      forall i | 0 <= i < |mt.fields| && i in d.seen ensures d.m.slots[i] == m.slots[i] {
        assert c.slots[i] == d.m.slots[i];
      }
    }
  }

  lemma EndOneofs(mt: MessageType, base: Message, d: Decoded, m: Message)
    requires PairedOneofs(mt, base, d, m) && Shaped(mt, d.m)
    ensures Cleared(mt, d).oneofs == m.oneofs <==> SameOneofs(d, m)
  {
    var c := Cleared(mt, d);
    forall o
      ensures o in c.oneofs <==> o in d.m.oneofs && o in d.seenOneofs
      ensures o in c.oneofs ==> c.oneofs[o] == d.m.oneofs[o]
      ensures o in m.oneofs <==> o in d.seenOneofs
    {
      assert PairedOneof(mt, base, d, m, o);
    }
    if SameOneofs(d, m) {
      forall o ensures o in d.seenOneofs ==> o in d.m.oneofs && o in m.oneofs && d.m.oneofs[o] == m.oneofs[o] {
        assert SameOneof(d, m, o);
      }
      assert c.oneofs == m.oneofs;
    }
  }

  /** Once what is missing has been cleared, the messages are equal exactly when all that was seen is. */
  lemma EndPaired(mt: MessageType, base: Message, d: Decoded, m: Message)
    requires PairedSlots(mt, base, d, m) && PairedOneofs(mt, base, d, m)
    ensures Cleared(mt, d) == m <==> SameSlots(mt, d, m) && SameOneofs(d, m)
  {
    EndSlots(mt, base, d, m);
    EndOneofs(mt, base, d, m);
    hide Cleared, SameSlots, SameOneofs;
  }

  /** The states of both loops after one more act. */
  function NextInto(mt: MessageType, d: Decoded, b: Act): (d': Decoded)
    requires Shaped(mt, d.m) && b.Assign? && b.field < |mt.fields| && StoreInto(mt, b.field, b.p, d.m, d.seenOneofs).Some?
    ensures Shaped(mt, d'.m)
  {
    var (m', o') := StoreInto(mt, b.field, b.p, d.m, d.seenOneofs).value;
    Decoded(m', d.seen + {b.field}, o')
  }

  function NextGenerated(mt: MessageType, m: Message, seenOneofs: set<nat>, a: Act): (m': Message)
    requires Shaped(mt, m) && a.Assign? && a.field < |mt.fields| && Store(mt, a.field, a.p, m, seenOneofs).Some?
    ensures Shaped(mt, m')
  {
    Store(mt, a.field, a.p, m, seenOneofs).value.0
  }

  /** One act on a field outside oneofs. */
  lemma SlotStep(mt: MessageType, base: Message, d: Decoded, m: Message, a: Act, b: Act)
    requires PairedSlots(mt, base, d, m) && Alike(mt, a, b) && a.Assign? && a.field !in d.seen && !mt.fields[a.field].card.Member?
    ensures StoreInto(mt, a.field, b.p, d.m, d.seenOneofs).Some? && Store(mt, a.field, a.p, m, d.seenOneofs).Some?
    ensures var d', m' := NextInto(mt, d, b), NextGenerated(mt, m, d.seenOneofs, a);
            && d'.m.oneofs == d.m.oneofs && m'.oneofs == m.oneofs && d'.seenOneofs == d.seenOneofs
            && PairedSlots(mt, base, d', m') && (SameSlots(mt, d', m') <==> SameSlots(mt, d, m) && QuietAct(mt, base, a, b))
  {
    var d', m' := NextInto(mt, d, b), NextGenerated(mt, m, d.seenOneofs, a);
    assert d'.m.slots[a.field] == m'.slots[a.field] <==> QuietAct(mt, base, a, b);
    assert d'.m.slots == d.m.slots[a.field := d'.m.slots[a.field]];
    assert m'.slots == m.slots[a.field := m'.slots[a.field]];
    hide NextInto, NextGenerated, QuietAct, StoreInto, Store;
  }

  /** An act outside oneofs does not disturb them. */
  lemma OneofsStay(mt: MessageType, base: Message, d: Decoded, m: Message, d': Decoded, m': Message, i: nat)
    requires PairedOneofs(mt, base, d, m) && i < |mt.fields| && !mt.fields[i].card.Member?
    requires d'.m.oneofs == d.m.oneofs && m'.oneofs == m.oneofs && d'.seenOneofs == d.seenOneofs && d'.seen == d.seen + {i}
    ensures PairedOneofs(mt, base, d', m') && (SameOneofs(d', m') <==> SameOneofs(d, m))
  {
    forall o ensures PairedOneof(mt, base, d', m', o) && (SameOneof(d', m', o) <==> SameOneof(d, m, o)) {
      assert PairedOneof(mt, base, d, m, o);
    }
  }

  /** An act on a member of a oneof. */
  lemma OneofStep(mt: MessageType, base: Message, d: Decoded, m: Message, a: Act, b: Act)
    requires Shaped(mt, base) && Shaped(mt, d.m) && Shaped(mt, m) && PairedOneofs(mt, base, d, m)
    requires Alike(mt, a, b) && a.Assign? && a.field !in d.seen && mt.fields[a.field].card.Member?
    requires StoreInto(mt, a.field, b.p, d.m, d.seenOneofs).Some? && Store(mt, a.field, a.p, m, d.seenOneofs).Some?
    ensures var d', m' := NextInto(mt, d, b), NextGenerated(mt, m, d.seenOneofs, a);
            && d'.m.slots == d.m.slots && m'.slots == m.slots
            && PairedOneofs(mt, base, d', m') && (SameOneofs(d', m') <==> SameOneofs(d, m) && QuietAct(mt, base, a, b))
  {
    if a.p.Null? {
      NullStep(mt, base, d, m, a, b);
    } else {
      ChoiceStep(mt, base, d, m, a, b);
    }
  }

  /** A null removes nothing but the choice of the field it is given for, which generated code cannot have seen. */
  lemma NullStores(mt: MessageType, base: Message, d: Decoded, m: Message, a: Act, b: Act)
    requires Shaped(mt, base) && Shaped(mt, d.m) && Shaped(mt, m) && PairedOneofs(mt, base, d, m)
    requires Alike(mt, a, b) && a.Assign? && a.field !in d.seen && mt.fields[a.field].card.Member? && a.p.Null?
    ensures NextGenerated(mt, m, d.seenOneofs, a) == m
    ensures var d' := NextInto(mt, d, b);
            var o := mt.fields[a.field].card.oneof;
            && d'.m.slots == d.m.slots && d'.seenOneofs == d.seenOneofs && d'.seen == d.seen + {a.field}
            && d'.m.oneofs == if o in d.m.oneofs && d.m.oneofs[o].field == a.field then d.m.oneofs - {o} else d.m.oneofs
  {
    assert PairedOneof(mt, base, d, m, mt.fields[a.field].card.oneof);
  }

  lemma NullStep(mt: MessageType, base: Message, d: Decoded, m: Message, a: Act, b: Act)
    requires Shaped(mt, base) && Shaped(mt, d.m) && Shaped(mt, m) && PairedOneofs(mt, base, d, m)
    requires Alike(mt, a, b) && a.Assign? && a.field !in d.seen && mt.fields[a.field].card.Member? && a.p.Null?
    ensures var d', m' := NextInto(mt, d, b), NextGenerated(mt, m, d.seenOneofs, a);
            && d'.m.slots == d.m.slots && m'.slots == m.slots
            && PairedOneofs(mt, base, d', m') && (SameOneofs(d', m') <==> SameOneofs(d, m) && QuietAct(mt, base, a, b))
  {
    NullStores(mt, base, d, m, a, b);
    assert QuietAct(mt, base, a, b);
    hide NextInto, NextGenerated, QuietAct, Alike, Shaped, Store, StoreInto;
    var d' := NextInto(mt, d, b);
    NullPairs(mt, base, d, m, a.field, mt.fields[a.field].card.oneof, d');
  }

  lemma NullPairs(mt: MessageType, base: Message, d: Decoded, m: Message, i: nat, o: nat, d': Decoded)
    requires PairedOneofs(mt, base, d, m) && i < |mt.fields| && mt.fields[i].card == Member(o) && i !in d.seen
    requires d'.seenOneofs == d.seenOneofs && d'.seen == d.seen + {i}
    requires d'.m.oneofs == if o in d.m.oneofs && d.m.oneofs[o].field == i then d.m.oneofs - {o} else d.m.oneofs
    ensures PairedOneofs(mt, base, d', m) && (SameOneofs(d', m) <==> SameOneofs(d, m))
  {
    forall p ensures PairedOneof(mt, base, d', m, p) && (SameOneof(d', m, p) <==> SameOneof(d, m, p)) {
      assert PairedOneof(mt, base, d, m, p);
    }
  }

  lemma ChoiceStores(mt: MessageType, d: Decoded, m: Message, a: Act, b: Act)
    requires Shaped(mt, d.m) && Shaped(mt, m)
    requires Alike(mt, a, b) && a.Assign? && mt.fields[a.field].card.Member? && !a.p.Null?
    requires StoreInto(mt, a.field, b.p, d.m, d.seenOneofs).Some? && Store(mt, a.field, a.p, m, d.seenOneofs).Some?
    ensures var d', m' := NextInto(mt, d, b), NextGenerated(mt, m, d.seenOneofs, a);
            var o := mt.fields[a.field].card.oneof;
            && a.p.Single? && b.p.Single? && o !in d.seenOneofs
            && d'.m.slots == d.m.slots && m'.slots == m.slots
            && d'.seenOneofs == d.seenOneofs + {o} && d'.seen == d.seen + {a.field}
            && m'.oneofs == m.oneofs[o := Choice(a.field, Stored(a.p.item))]
            && d'.m.oneofs == if IsUnknown(b.p) then d.m.oneofs else d.m.oneofs[o := Choice(a.field, Stored(b.p.item))]
  {
  }

  lemma ChoiceStep(mt: MessageType, base: Message, d: Decoded, m: Message, a: Act, b: Act)
    requires Shaped(mt, base) && Shaped(mt, d.m) && Shaped(mt, m) && PairedOneofs(mt, base, d, m)
    requires Alike(mt, a, b) && a.Assign? && a.field !in d.seen && mt.fields[a.field].card.Member? && !a.p.Null?
    requires StoreInto(mt, a.field, b.p, d.m, d.seenOneofs).Some? && Store(mt, a.field, a.p, m, d.seenOneofs).Some?
    ensures var d', m' := NextInto(mt, d, b), NextGenerated(mt, m, d.seenOneofs, a);
            && d'.m.slots == d.m.slots && m'.slots == m.slots
            && PairedOneofs(mt, base, d', m') && (SameOneofs(d', m') <==> SameOneofs(d, m) && QuietAct(mt, base, a, b))
  {
    ChoiceStores(mt, d, m, a, b);
    var o := mt.fields[a.field].card.oneof;
    var d', m' := NextInto(mt, d, b), NextGenerated(mt, m, d.seenOneofs, a);
    hide NextInto, NextGenerated, Store, StoreInto;
    assert PairedOneof(mt, base, d, m, o);
    ChoicePairs(mt, base, d, m, a.field, o, d', m');
    assert o in d'.m.oneofs && d'.m.oneofs[o] == m'.oneofs[o] <==> QuietAct(mt, base, a, b);
  }

  lemma ChoicePairs(mt: MessageType, base: Message, d: Decoded, m: Message, i: nat, o: nat, d': Decoded, m': Message)
    requires PairedOneofs(mt, base, d, m) && i < |mt.fields| && mt.fields[i].card == Member(o) && i !in d.seen && o !in d.seenOneofs
    requires d'.seenOneofs == d.seenOneofs + {o} && d'.seen == d.seen + {i}
    requires o in m'.oneofs && m'.oneofs[o].field == i && m'.oneofs == m.oneofs[o := m'.oneofs[o]]
    requires d'.m.oneofs == d.m.oneofs || (o in d'.m.oneofs && d'.m.oneofs[o].field == i && d'.m.oneofs == d.m.oneofs[o := d'.m.oneofs[o]])
    ensures PairedOneofs(mt, base, d', m')
    ensures SameOneofs(d', m') <==> SameOneofs(d, m) && o in d'.m.oneofs && d'.m.oneofs[o] == m'.oneofs[o]
  {
    forall p | p != o ensures PairedOneof(mt, base, d', m', p) && (SameOneof(d', m', p) <==> SameOneof(d, m, p)) {
      assert PairedOneof(mt, base, d, m, p);
    }
    assert PairedOneof(mt, base, d, m, o) && SameOneof(d, m, o);
    assert PairedOneof(mt, base, d', m', o);
    if SameOneofs(d', m') {
      forall p ensures SameOneof(d, m, p) {
        assert SameOneof(d', m', p);
      }
      assert SameOneof(d', m', o);
    }
    if SameOneofs(d, m) && o in d'.m.oneofs && d'.m.oneofs[o] == m'.oneofs[o] {
      forall p ensures SameOneof(d', m', p) {
        assert SameOneof(d, m, p);
      }
    }
  }

  // ---------------------------------------------------------------- all acts

  predicate AllAlike(mt: MessageType, acts: seq<Act>, others: seq<Act>) {
    |acts| == |others| && forall k :: 0 <= k < |acts| ==> Alike(mt, acts[k], others[k])
  }

  predicate AllQuiet(mt: MessageType, base: Message, acts: seq<Act>, others: seq<Act>)
    requires Shaped(mt, base) && AllAlike(mt, acts, others)
  {
    forall k :: 0 <= k < |acts| ==> QuietAct(mt, base, acts[k], others[k])
  }

  /** One act, in or outside oneofs. */
  lemma StepPaired(mt: MessageType, base: Message, d: Decoded, m: Message, a: Act, b: Act)
    requires PairedSlots(mt, base, d, m) && PairedOneofs(mt, base, d, m)
    requires Alike(mt, a, b) && a.Assign? && a.field !in d.seen
    requires StoreInto(mt, a.field, b.p, d.m, d.seenOneofs).Some? && Store(mt, a.field, a.p, m, d.seenOneofs).Some?
    ensures var d', m' := NextInto(mt, d, b), NextGenerated(mt, m, d.seenOneofs, a);
            && PairedSlots(mt, base, d', m') && PairedOneofs(mt, base, d', m')
            && (SameSlots(mt, d', m') && SameOneofs(d', m') <==> SameSlots(mt, d, m) && SameOneofs(d, m) && QuietAct(mt, base, a, b))
  {
    var d', m' := NextInto(mt, d, b), NextGenerated(mt, m, d.seenOneofs, a);
    assert d'.seen == d.seen + {a.field};
    if mt.fields[a.field].card.Member? {
      OneofStep(mt, base, d, m, a, b);
      hide NextInto, NextGenerated, QuietAct, Store, StoreInto, PairedOneofs, SameOneofs;
      SlotsStay(mt, base, d, m, d', m', a.field);
    } else {
      SlotStep(mt, base, d, m, a, b);
      hide NextInto, NextGenerated, QuietAct, Store, StoreInto, PairedSlots, SameSlots;
      OneofsStay(mt, base, d, m, d', m', a.field);
    }
  }

  lemma SlotsStay(mt: MessageType, base: Message, d: Decoded, m: Message, d': Decoded, m': Message, i: nat)
    requires PairedSlots(mt, base, d, m) && i < |mt.fields| && mt.fields[i].card.Member?
    requires d'.m.slots == d.m.slots && m'.slots == m.slots && d'.seen == d.seen + {i}
    ensures PairedSlots(mt, base, d', m') && (SameSlots(mt, d', m') <==> SameSlots(mt, d, m))
  {
  }

  /** The messages that the two loops come to are equal exactly when all was equal so far and every act to come is quiet. */
  lemma {:induction false} RunsCompare(mt: MessageType, base: Message, acts: seq<Act>, others: seq<Act>, d: Decoded, m: Message)
    requires PairedSlots(mt, base, d, m) && PairedOneofs(mt, base, d, m) && AllAlike(mt, acts, others)
    requires Run(mt, acts, d.seen, d.seenOneofs, m).Some? && RunInto(mt, others, d).Some?
    ensures Cleared(mt, RunInto(mt, others, d).value) == Run(mt, acts, d.seen, d.seenOneofs, m).value <==>
            SameSlots(mt, d, m) && SameOneofs(d, m) && AllQuiet(mt, base, acts, others)
    decreases |acts|
  {
    if acts == [] {
      EndPaired(mt, base, d, m);
    } else {
      var a, b := acts[0], others[0];
      assert Alike(mt, a, b);
      AllQuietHead(mt, base, acts, others);
      hide Store, StoreInto, Alike, AllQuiet, PairedSlots, PairedOneofs, SameSlots, SameOneofs, Cleared, QuietAct;
      AlikeHead(mt, a, b);
      if a.Skip? {
        RunsCompare(mt, base, acts[1..], others[1..], d, m);
        assert QuietAct(mt, base, a, b) by { SkipQuiet(mt, base, a, b); }
      } else {
        StepPaired(mt, base, d, m, a, b);
        StepOneofs(mt, d, m, a, b);
        RunsCompare(mt, base, acts[1..], others[1..], NextInto(mt, d, b), NextGenerated(mt, m, d.seenOneofs, a));
      }
    }
  }

  lemma SkipQuiet(mt: MessageType, base: Message, a: Act, b: Act)
    requires Shaped(mt, base) && Alike(mt, a, b) && a.Skip?
    ensures QuietAct(mt, base, a, b)
  {
  }

  lemma AlikeHead(mt: MessageType, a: Act, b: Act)
    requires Alike(mt, a, b)
    ensures a.Assign? == b.Assign? && (a.Assign? ==> a.field == b.field < |mt.fields|)
  {
  }

  lemma StepOneofs(mt: MessageType, d: Decoded, m: Message, a: Act, b: Act)
    requires Shaped(mt, d.m) && Shaped(mt, m) && Alike(mt, a, b) && a.Assign?
    ensures var r, r' := StoreInto(mt, a.field, b.p, d.m, d.seenOneofs), Store(mt, a.field, a.p, m, d.seenOneofs);
            r.Some? == r'.Some? && (r.Some? ==> r.value.1 == r'.value.1)
  {
    StoresAlike(mt, a.field, b.p, a.p, d.m, m, d.seenOneofs);
  }

  lemma AllQuietHead(mt: MessageType, base: Message, acts: seq<Act>, others: seq<Act>)
    requires Shaped(mt, base) && AllAlike(mt, acts, others) && acts != []
    ensures AllAlike(mt, acts[1..], others[1..])
    ensures AllQuiet(mt, base, acts, others) <==> QuietAct(mt, base, acts[0], others[0]) && AllQuiet(mt, base, acts[1..], others[1..])
  {
    hide Alike, QuietAct;
    assert forall k :: 1 <= k < |acts| ==> acts[k] == acts[1..][k - 1] && others[k] == others[1..][k - 1];
    assert AllAlike(mt, acts[1..], others[1..]);
    if AllQuiet(mt, base, acts[1..], others[1..]) {
      forall k | 1 <= k < |acts| ensures QuietAct(mt, base, acts[k], others[k]) {
        assert QuietAct(mt, base, acts[1..][k - 1], others[1..][k - 1]);
      }
    }
  }

  // ---------------------------------------------------------------- all trees

  /** Both decoders give a meaning to the same objects. */
  lemma ObjectsAlike(env: Env, t: nat, base: Message, v: Tree, depth: nat)
    requires SchemaOk(env.schema) && Valid(v) && Shaped(env.schema(t), base)
    ensures MessageOf(env, t, v, depth).Some? == ObjectWith(env, t, base, v, depth).Some?
  {
    hide *;
    NoSpace();
    NarrowIs(env, t, base, [], v, [], depth);
    MessageIs(env, t, [], v, [], depth);
    MessageEnds(env, t, base, [] + TreeTo(v, []), depth);
    LiftCases(ObjectWith(env, t, base, v, depth), []);
    LiftCases(MessageOf(env, t, v, depth), []);
    SameEndSome(NarrowMessage(env, t, base, [] + TreeTo(v, []), depth), SlowMessage(env, t, [] + TreeTo(v, []), depth));
  }

  lemma SameEndSome<T, U>(r: Read<T>, r': Read<U>)
    requires SameEnd(r, r')
    ensures r.Ok? == r'.Ok?
  {
  }

  lemma {:induction false} ItemExact(env: Env, kind: Kind, prior: Option<Message>, v: Tree, depth: nat)
    requires SchemaOk(env.schema) && Valid(v)
    ensures var a, b := ItemOf(env, kind, v, depth), ItemWith(env, kind, prior, v, depth);
            && a.Some? == b.Some?
            && (a.Some? ==> a.value.Known? == b.value.Known?)
            && (a.Some? ==> (a == b <==>
                  (kind.MessageKind? ==> QuietObject(env.schema, kind.message, InnerStart(env.schema(kind.message), prior), v))))
    decreases v, 1
  {
    hide SchemaOk, ScalarOf, MessageOf, ObjectWith, InnerStart, QuietObject, TargetOk, Valid;
    if kind.MessageKind? {
      InnerIsTarget(env.schema(kind.message), prior);
      ObjectExact(env, kind.message, InnerStart(env.schema(kind.message), prior), v, depth);
    }
  }

  lemma InnerIsTarget(mt: MessageType, prior: Option<Message>)
    ensures TargetOk(mt, InnerStart(mt, prior))
  {
  }

  lemma {:induction false} ListExact(env: Env, kind: Kind, e: Elems, depth: nat)
    requires SchemaOk(env.schema) && ValidElems(e)
    ensures var a, b := ListOf(env, kind, e, depth), ListWith(env, kind, e, depth);
            && a.Some? == b.Some?
            && (a.Some? ==> (a == b <==> (kind.MessageKind? ==> QuietElems(env.schema, kind.message, e))))
    decreases e, 2
  {
    assert Valid(e.v);
    hide SchemaOk, ItemOf, ItemWith, InnerStart, QuietObject, Valid;
    ItemExact(env, kind, None, e.v, depth);
    if e.MoreElems? {
      ListExact(env, kind, e.tail, depth);
    }
    var a, b := ItemOf(env, kind, e.v, depth), ItemWith(env, kind, None, e.v, depth);
    if a.Some? && ListOf(env, kind, e, depth).Some? {
      var vs := if e.MoreElems? then ListOf(env, kind, e.tail, depth).value else [];
      var ws := if e.MoreElems? then ListWith(env, kind, e.tail, depth).value else [];
      ItemsEqual(a.value, b.value, vs, ws);
    }
  }

  lemma ItemsEqual(a: Item, b: Item, vs: seq<Value>, ws: seq<Value>)
    requires a.Known? == b.Known?
    ensures (if a.Known? then [a.v] + vs else vs) == (if b.Known? then [b.v] + ws else ws) <==> a == b && vs == ws
  {
    if a.Known? && [a.v] + vs == [b.v] + ws {
      assert ([a.v] + vs)[0] == ([b.v] + ws)[0];
      assert ([a.v] + vs)[1..] == ([b.v] + ws)[1..];
    }
  }

  lemma {:induction false} PayloadExact(env: Env, f: Field, prior: Option<Message>, v: Tree, depth: nat)
    requires SchemaOk(env.schema) && Valid(v)
    ensures var a, b := PayloadOf(env, f, v, depth), PayloadWith(env, f, prior, v, depth);
            && a.Some? == b.Some?
            && (a.Some? ==> SameForm(a.value, b.value) && (a == b <==> QuietPayload(env.schema, f, prior, v)))
    decreases v, 2
  {
    hide SchemaOk, ItemOf, ItemWith, ListOf, ListWith, PairsOf, InnerStart, QuietElems, ValidElems;
    if f.card.Repeated? && v.Arr? {
      ListExact(env, f.kind, v.elems, depth + 1);
    }
    ItemExact(env, f.kind, prior, v, depth);
  }

  /** An item is unknown exactly when it is a name the enum does not know. */
  lemma UnknownLands(env: Env, f: Field, v: Tree, depth: nat)
    requires Valid(v) && PayloadOf(env, f, v, depth).Some?
    ensures IsUnknown(PayloadOf(env, f, v, depth).value) <==> Lands(f, v)
    ensures Lands(f, v) ==> IsSingularEnum(f)
  {
    hide ListOf, PairsOf, MessageOf, SignedOf, UnsignedOf, Valid, Meaning;
  }

  lemma {:induction false} MemberExact(env: Env, t: nat, base: Message, key: bytes, v: Tree, depth: nat)
    requires SchemaOk(env.schema) && Valid(v) && Shaped(env.schema(t), base)
    ensures var a, b := MemberOf(env, t, key, v, depth), MemberWith(env, t, base, key, v, depth);
            && a.Some? == b.Some?
            && (a.Some? ==> Alike(env.schema(t), a.value, b.value))
            && (a.Some? ==> (QuietAct(env.schema(t), base, a.value, b.value) <==> QuietMember(env.schema, t, base, key, v)))
    decreases v, 3
  {
    hide SchemaOk, PayloadOf, PayloadWith, QuietPayload, Lands, HoldsZero, Existing, IsSingularEnum, SameForm, IsUnknown, FitsDepth, Find, Valid;
    var mt := env.schema(t);
    if Find(mt, key).Some? {
      var f := mt.fields[Find(mt, key).value];
      var prior := Existing(f, base.slots[Find(mt, key).value]);
      PayloadExact(env, f, prior, v, depth);
      if PayloadOf(env, f, v, depth).Some? {
        UnknownLands(env, f, v, depth);
      }
    }
  }

  lemma {:induction false} ActsExact(env: Env, t: nat, base: Message, ms: Members, depth: nat)
    requires SchemaOk(env.schema) && ValidMembers(ms) && Shaped(env.schema(t), base)
    ensures var a, b := ActsOf(env, t, ms, depth), ActsWith(env, t, base, ms, depth);
            && a.Some? == b.Some?
            && (a.Some? ==> AllAlike(env.schema(t), a.value, b.value))
            && (a.Some? ==> (AllQuiet(env.schema(t), base, a.value, b.value) <==> QuietMembers(env.schema, t, base, ms)))
    decreases ms, 4
  {
    var mt := env.schema(t);
    assert Valid(ms.v);
    hide SchemaOk, MemberOf, MemberWith, QuietMember, Alike, AllQuiet, QuietAct, Meaning, Valid;
    MemberExact(env, t, base, Meaning(ms.head.key), ms.v, depth);
    if ms.MoreMembers? {
      ActsExact(env, t, base, ms.tail, depth);
    }
    var a, b := ActsOf(env, t, ms, depth), ActsWith(env, t, base, ms, depth);
    if a.Some? && b.Some? {
      if ms.MoreMembers? {
        assert a.value[1..] == ActsOf(env, t, ms.tail, depth).value;
        assert b.value[1..] == ActsWith(env, t, base, ms.tail, depth).value;
      } else {
        assert a.value[1..] == [] && b.value[1..] == [];
      }
      AlikeFrom(mt, a.value, b.value);
      AllQuietHead(mt, base, a.value, b.value);
      NoActsQuiet(mt, base);
    }
  }

  lemma AlikeFrom(mt: MessageType, acts: seq<Act>, others: seq<Act>)
    requires acts != [] && others != [] && Alike(mt, acts[0], others[0]) && AllAlike(mt, acts[1..], others[1..])
    ensures AllAlike(mt, acts, others)
  {
    hide Alike;
    forall k | 0 <= k < |acts| ensures Alike(mt, acts[k], others[k]) {
      if k > 0 {
        assert Alike(mt, acts[1..][k - 1], others[1..][k - 1]);
      }
    }
  }

  lemma NoActsQuiet(mt: MessageType, base: Message)
    requires Shaped(mt, base)
    ensures AllAlike(mt, [], []) && AllQuiet(mt, base, [], [])
  {
  }

  /** The table decoder's message is the generated one exactly when the object is quiet. */
  lemma {:induction false} ObjectExact(env: Env, t: nat, base: Message, v: Tree, depth: nat)
    requires SchemaOk(env.schema) && Valid(v) && TargetOk(env.schema(t), base)
    ensures var a, b := MessageOf(env, t, v, depth), ObjectWith(env, t, base, v, depth);
            && a.Some? == b.Some?
            && (a.Some? ==> (a == b <==> QuietObject(env.schema, t, base, v)))
    decreases v, 0
  {
    ObjectsAlike(env, t, base, v, depth);
    hide SchemaOk, ActsOf, ActsWith, Run, RunInto, Cleared, QuietMembers, AllQuiet, AllAlike, PairedSlots, PairedOneofs, SameSlots, SameOneofs;
    if v.Obj? && depth + 1 <= MAX_DEPTH {
      var mt := env.schema(t);
      ActsExact(env, t, base, v.members, depth + 1);
      StartPaired(mt, base);
      var a, b := ActsOf(env, t, v.members, depth + 1), ActsWith(env, t, base, v.members, depth + 1);
      if MessageOf(env, t, v, depth).Some? {
        RunsCompare(mt, base, a.value, b.value, Decoded(base, {}, {}), Fresh(mt));
      }
    }
  }

  // ---------------------------------------------------------------- when every object is quiet

  /** Where nothing is discarded, no unknown name is accepted. */
  lemma {:induction false} AcceptedQuiet(env: Env, t: nat, base: Message, v: Tree, depth: nat)
    requires !env.discard && Valid(v) && Shaped(env.schema(t), base) && MessageOf(env, t, v, depth).Some?
    ensures QuietObject(env.schema, t, base, v)
    decreases v, 0
  {
    hide Run, ActsOf, QuietMembers;
    if v.Obj? {
      MembersQuiet(env, t, base, v.members, depth + 1);
    }
  }

  lemma {:induction false} MembersQuiet(env: Env, t: nat, base: Message, ms: Members, depth: nat)
    requires !env.discard && ValidMembers(ms) && Shaped(env.schema(t), base) && ActsOf(env, t, ms, depth).Some?
    ensures QuietMembers(env.schema, t, base, ms)
    decreases ms, 3
  {
    hide MemberOf, QuietMember, Meaning;
    assert Valid(ms.v);
    MemberQuiet(env, t, base, Meaning(ms.head.key), ms.v, depth);
    if ms.MoreMembers? {
      MembersQuiet(env, t, base, ms.tail, depth);
    }
  }

  lemma {:induction false} MemberQuiet(env: Env, t: nat, base: Message, key: bytes, v: Tree, depth: nat)
    requires !env.discard && Valid(v) && Shaped(env.schema(t), base) && MemberOf(env, t, key, v, depth).Some?
    ensures QuietMember(env.schema, t, base, key, v)
    decreases v, 2
  {
    hide PayloadOf, QuietPayload, Existing, HoldsZero, Find;
    if Find(env.schema(t), key).Some? {
      var i := Find(env.schema(t), key).value;
      var f := env.schema(t).fields[i];
      NothingLands(env, f, v, depth);
      PayloadQuiet(env, f, Existing(f, base.slots[i]), v, depth);
    }
  }

  lemma NothingLands(env: Env, f: Field, v: Tree, depth: nat)
    requires !env.discard && Valid(v) && PayloadOf(env, f, v, depth).Some?
    ensures !Lands(f, v)
  {
    hide ListOf, PairsOf, MessageOf, SignedOf, UnsignedOf, Valid, Meaning;
  }

  lemma {:induction false} PayloadQuiet(env: Env, f: Field, prior: Option<Message>, v: Tree, depth: nat)
    requires !env.discard && Valid(v) && PayloadOf(env, f, v, depth).Some?
    ensures QuietPayload(env.schema, f, prior, v)
    decreases v, 1
  {
    hide MessageOf, ListOf, PairsOf, QuietObject, QuietElems, ScalarOf, InnerStart;
    if f.kind.MessageKind? && v != Lit(NULL) {
      match f.card
      case StringMap =>
      case Repeated =>
        if v.Arr? {
          ElemsQuiet(env, f.kind, v.elems, depth + 1);
        }
      case _ => AcceptedQuiet(env, f.kind.message, InnerStart(env.schema(f.kind.message), prior), v, depth);
    }
    if v == Lit(NULL) && f.kind.MessageKind? {
      assert QuietObject(env.schema, f.kind.message, InnerStart(env.schema(f.kind.message), prior), v) by {
        ScalarsQuiet(env.schema, f.kind.message, InnerStart(env.schema(f.kind.message), prior), v);
      }
    }
  }

  lemma ScalarsQuiet(schema: Schema, t: nat, base: Message, v: Tree)
    requires Valid(v) && Shaped(schema(t), base) && !v.Obj?
    ensures QuietObject(schema, t, base, v)
  {
  }

  lemma {:induction false} ElemsQuiet(env: Env, kind: Kind, e: Elems, depth: nat)
    requires !env.discard && ValidElems(e) && kind.MessageKind? && ListOf(env, kind, e, depth).Some?
    ensures QuietElems(env.schema, kind.message, e)
    decreases e, 2
  {
    hide MessageOf, QuietObject, InnerStart;
    AcceptedQuiet(env, kind.message, InnerStart(env.schema(kind.message), None), e.v, depth);
    if e.MoreElems? {
      ElemsQuiet(env, kind, e.tail, depth);
    }
  }
}
