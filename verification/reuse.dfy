/**
 When what the target of the table decoder held before shows in the result. Where unknown fields are
 refused it never does; where they are discarded it does exactly when an unknown enum name lands in
 a field that held something else than nothing.
 */
module Reuse {
  import opened Bytes
  import opened Json
  import opened Schema
  import opened Generated
  import opened Acts
  import opened Meanings
  import opened Table
  import opened TableMeanings
  import opened Traces

  // ---------------------------------------------------------------- the condition

  /** The fields that are given null. */
  function Nulls(mt: MessageType, ms: Members): set<nat>
    requires ValidMembers(ms)
    decreases ms
  {
    var i := Find(mt, Meaning(ms.head.key));
    (if i.Some? && ms.v == Lit(NULL) then {i.value} else {}) + (if ms.MoreMembers? then Nulls(mt, ms.tail) else {})
  }

  /** An unknown name for field `i` leaves nothing: no number, and no choice that is not removed by a null. */
  predicate HoldsNothing(mt: MessageType, i: nat, base: Message, nulls: set<nat>)
    requires i < |mt.fields| && Shaped(mt, base)
  {
    match mt.fields[i].card
    case Implicit => base.slots[i] == One(Num(0))
    case Member(o) => o in base.oneofs ==> base.oneofs[o].field in nulls
    case _ => true
  }

  /** Every unknown enum name in the object, at any nesting outside lists, lands where nothing is left. */
  predicate HiddenObject(schema: Schema, t: nat, base: Message, v: Tree)
    requires Valid(v) && Shaped(schema(t), base)
    decreases v, 0
  {
    v.Obj? ==> HiddenMembers(schema, t, base, Nulls(schema(t), v.members), v.members)
  }

  predicate HiddenMembers(schema: Schema, t: nat, base: Message, nulls: set<nat>, ms: Members)
    requires ValidMembers(ms) && Shaped(schema(t), base)
    decreases ms, 3
  {
    && HiddenMember(schema, t, base, nulls, Meaning(ms.head.key), ms.v)
    && (ms.MoreMembers? ==> HiddenMembers(schema, t, base, nulls, ms.tail))
  }

  predicate HiddenMember(schema: Schema, t: nat, base: Message, nulls: set<nat>, key: bytes, v: Tree)
    requires Valid(v) && Shaped(schema(t), base)
    decreases v, 2
  {
    var mt := schema(t);
    match Find(mt, key)
    case None => true
    case Some(i) =>
      if Lands(mt.fields[i], v) then HoldsNothing(mt, i, base, nulls)
      else HiddenPayload(schema, mt.fields[i], Existing(mt.fields[i], base.slots[i]), v)
  }

  /** The elements of a list are decoded into empty messages, so nothing held shows in them. */
  predicate HiddenPayload(schema: Schema, f: Field, prior: Option<Message>, v: Tree)
    requires Valid(v)
    decreases v, 1
  {
    f.kind.MessageKind? && !f.card.StringMap? && !f.card.Repeated? ==>
      HiddenObject(schema, f.kind.message, InnerStart(schema(f.kind.message), prior), v)
  }

  // ---------------------------------------------------------------- one act

  /** The acts, decoded into `base` and into nothing, leave the same in their field. */
  predicate HiddenAct(mt: MessageType, base: Message, nulls: set<nat>, a: Act, b: Act)
    requires Shaped(mt, base) && Alike(mt, a, b)
  {
    a.Assign? ==> if IsUnknown(a.p) then HoldsNothing(mt, a.field, base, nulls) else a.p == b.p
  }

  /** What the fields seen so far will hold is the same, once the nulls to come have removed their choices. */
  predicate SameChoice(base: Message, nulls: set<nat>, d: Decoded, e: Message, o: nat) {
    o in d.seenOneofs ==>
      if o in e.oneofs then o in d.m.oneofs && d.m.oneofs[o] == e.oneofs[o]
      else o in base.oneofs ==> base.oneofs[o].field in nulls
  }

  ghost predicate SameChoices(base: Message, nulls: set<nat>, d: Decoded, e: Message) {
    forall o :: SameChoice(base, nulls, d, e, o)
  }

  /** A oneof of the two loops side by side: `d` began with `base`, `e` with nothing, `nulled` got nulls. */
  predicate PairedChoice(mt: MessageType, base: Message, nulled: set<nat>, d: Decoded, e: Message, o: nat) {
    && Proper(mt, base.oneofs, o) && Proper(mt, d.m.oneofs, o)
    && (o in e.oneofs ==>
          && o in d.seenOneofs && e.oneofs[o].field in d.seen
          && o in d.m.oneofs && d.m.oneofs[o].field == e.oneofs[o].field)
    && (o !in e.oneofs ==>
          && (o in d.m.oneofs <==> o in base.oneofs && base.oneofs[o].field !in nulled)
          && (o in d.m.oneofs ==> d.m.oneofs[o] == base.oneofs[o]))
    && (o !in d.seenOneofs && o in base.oneofs && base.oneofs[o].field in d.seen ==> base.oneofs[o].field in nulled)
  }

  ghost predicate PairedChoices(mt: MessageType, base: Message, nulled: set<nat>, d: Decoded, e: Message) {
    && nulled <= d.seen
    && forall o :: PairedChoice(mt, base, nulled, d, e, o)
  }

  function NullOf(a: Act): set<nat> {
    if a.Assign? && a.p.Null? then {a.field} else {}
  }

  lemma StartChoices(mt: MessageType, base: Message, nulls: set<nat>)
    requires TargetOk(mt, base)
    ensures var d, m := Decoded(base, {}, {}), Fresh(mt);
            PairedChoices(mt, base, {}, d, m) && SameChoices(base, nulls, d, m)
  {
  }

  lemma EndChoices(mt: MessageType, base: Message, nulled: set<nat>, d: Decoded, e: Message)
    requires PairedChoices(mt, base, nulled, d, e) && Shaped(mt, d.m) && Shaped(mt, e)
    ensures Cleared(mt, d).oneofs == Cleared(mt, Decoded(e, d.seen, d.seenOneofs)).oneofs <==> SameChoices(base, nulled, d, e)
  {
    var c, c' := Cleared(mt, d), Cleared(mt, Decoded(e, d.seen, d.seenOneofs));
    forall o
      ensures (o in c.oneofs <==> o in d.m.oneofs && o in d.seenOneofs) && (o in c.oneofs ==> c.oneofs[o] == d.m.oneofs[o])
      ensures (o in c'.oneofs <==> o in e.oneofs) && (o in c'.oneofs ==> c'.oneofs[o] == e.oneofs[o])
      ensures SameChoice(base, nulled, d, e, o) <==>
              (o in c.oneofs <==> o in c'.oneofs) && (o in c.oneofs && o in c'.oneofs ==> c.oneofs[o] == c'.oneofs[o])
    {
      assert PairedChoice(mt, base, nulled, d, e, o);
    }
    if SameChoices(base, nulled, d, e) {
      forall o ensures (o in c.oneofs <==> o in c'.oneofs) && (o in c.oneofs && o in c'.oneofs ==> c.oneofs[o] == c'.oneofs[o]) {
        assert SameChoice(base, nulled, d, e, o);
      }
      assert c.oneofs == c'.oneofs;
    }
  }

  lemma EndReuse(mt: MessageType, base: Message, nulled: set<nat>, d: Decoded, e: Message)
    requires PairedSlots(mt, base, d, e) && PairedChoices(mt, base, nulled, d, e)
    ensures Cleared(mt, d) == Cleared(mt, Decoded(e, d.seen, d.seenOneofs)) <==> SameSlots(mt, d, e) && SameChoices(base, nulled, d, e)
  {
    EndSlots(mt, base, d, e);
    EndChoices(mt, base, nulled, d, e);
    assert Cleared(mt, Decoded(e, d.seen, d.seenOneofs)).slots == e.slots;
    hide Cleared, SameSlots, SameChoices;
  }

  /** One act on a field outside oneofs. */
  lemma SlotReuse(mt: MessageType, base: Message, nulls: set<nat>, d: Decoded, e: Message, a: Act, b: Act)
    requires PairedSlots(mt, base, d, e) && Alike(mt, a, b) && a.Assign? && a.field !in d.seen && !mt.fields[a.field].card.Member?
    ensures StoreInto(mt, a.field, a.p, d.m, d.seenOneofs).Some? && StoreInto(mt, a.field, b.p, e, d.seenOneofs).Some?
    ensures var d', e' := NextInto(mt, d, a), NextInto(mt, Decoded(e, d.seen, d.seenOneofs), b);
            && d'.m.oneofs == d.m.oneofs && e'.m.oneofs == e.oneofs && d'.seenOneofs == d.seenOneofs && d'.seen == d.seen + {a.field}
            && PairedSlots(mt, base, d', e'.m) && (SameSlots(mt, d', e'.m) <==> SameSlots(mt, d, e) && HiddenAct(mt, base, nulls, a, b))
  {
    var d', e' := NextInto(mt, d, a), NextInto(mt, Decoded(e, d.seen, d.seenOneofs), b);
    assert d'.m.slots[a.field] == e'.m.slots[a.field] <==> HiddenAct(mt, base, nulls, a, b);
    assert d'.m.slots == d.m.slots[a.field := d'.m.slots[a.field]];
    assert e'.m.slots == e.slots[a.field := e'.m.slots[a.field]];
    hide NextInto, HiddenAct, StoreInto, Store;
  }

  lemma ChoicesStay(mt: MessageType, base: Message, nulls: set<nat>, nulled: set<nat>, d: Decoded, e: Message, d': Decoded, e': Message, i: nat, a: Act)
    requires PairedChoices(mt, base, nulled, d, e) && i < |mt.fields| && !mt.fields[i].card.Member? && NullOf(a) <= {i}
    requires d'.m.oneofs == d.m.oneofs && e'.oneofs == e.oneofs && d'.seenOneofs == d.seenOneofs && d'.seen == d.seen + {i}
    ensures PairedChoices(mt, base, nulled + NullOf(a), d', e') && (SameChoices(base, nulls, d', e') <==> SameChoices(base, nulls, d, e))
  {
    forall o ensures PairedChoice(mt, base, nulled + NullOf(a), d', e', o) && (SameChoice(base, nulls, d', e', o) <==> SameChoice(base, nulls, d, e, o)) {
      assert PairedChoice(mt, base, nulled, d, e, o);
    }
  }

  /** A null for a member of a oneof. */
  lemma NullChoices(mt: MessageType, base: Message, nulls: set<nat>, nulled: set<nat>, d: Decoded, e: Message, i: nat, o: nat, d': Decoded)
    requires PairedChoices(mt, base, nulled, d, e) && i < |mt.fields| && mt.fields[i].card == Member(o) && i !in d.seen && i in nulls
    requires d'.seenOneofs == d.seenOneofs && d'.seen == d.seen + {i}
    requires d'.m.oneofs == if o in d.m.oneofs && d.m.oneofs[o].field == i then d.m.oneofs - {o} else d.m.oneofs
    ensures PairedChoices(mt, base, nulled + {i}, d', e) && (SameChoices(base, nulls, d', e) <==> SameChoices(base, nulls, d, e))
  {
    forall p ensures PairedChoice(mt, base, nulled + {i}, d', e, p) && (SameChoice(base, nulls, d', e, p) <==> SameChoice(base, nulls, d, e, p)) {
      assert PairedChoice(mt, base, nulled, d, e, p);
    }
  }

  /** Any other value for a member of a oneof. */
  lemma OtherChoices(mt: MessageType, base: Message, nulls: set<nat>, nulled: set<nat>, d: Decoded, e: Message, i: nat, o: nat,
                     d': Decoded, e': Message)
    requires PairedChoices(mt, base, nulled, d, e) && i < |mt.fields| && mt.fields[i].card == Member(o) && i !in d.seen && o !in d.seenOneofs
    requires d'.seenOneofs == d.seenOneofs + {o} && d'.seen == d.seen + {i}
    requires (d'.m.oneofs == d.m.oneofs && e'.oneofs == e.oneofs)
             || (o in d'.m.oneofs && d'.m.oneofs[o].field == i && d'.m.oneofs == d.m.oneofs[o := d'.m.oneofs[o]]
                 && o in e'.oneofs && e'.oneofs[o].field == i && e'.oneofs == e.oneofs[o := e'.oneofs[o]])
    ensures PairedChoices(mt, base, nulled, d', e')
    ensures SameChoices(base, nulls, d', e') <==> SameChoices(base, nulls, d, e) && SameChoice(base, nulls, d', e', o)
  {
    forall p | p != o ensures PairedChoice(mt, base, nulled, d', e', p) && (SameChoice(base, nulls, d', e', p) <==> SameChoice(base, nulls, d, e, p)) {
      assert PairedChoice(mt, base, nulled, d, e, p);
    }
    assert PairedChoice(mt, base, nulled, d, e, o) && SameChoice(base, nulls, d, e, o);
    assert PairedChoice(mt, base, nulled, d', e', o);
    if SameChoices(base, nulls, d', e') {
      forall p ensures SameChoice(base, nulls, d, e, p) {
        assert SameChoice(base, nulls, d', e', p);
      }
    }
    if SameChoices(base, nulls, d, e) && SameChoice(base, nulls, d', e', o) {
      forall p ensures SameChoice(base, nulls, d', e', p) {
        assert SameChoice(base, nulls, d, e, p);
      }
    }
  }

  /** What a member of a oneof does to the two states. */
  lemma MemberStores(mt: MessageType, d: Decoded, e: Message, a: Act, b: Act)
    requires Shaped(mt, d.m) && Shaped(mt, e) && Alike(mt, a, b) && a.Assign? && mt.fields[a.field].card.Member?
    requires StoreInto(mt, a.field, a.p, d.m, d.seenOneofs).Some? && StoreInto(mt, a.field, b.p, e, d.seenOneofs).Some?
    ensures var d', e' := NextInto(mt, d, a), NextInto(mt, Decoded(e, d.seen, d.seenOneofs), b);
            var o := mt.fields[a.field].card.oneof;
            && d'.m.slots == d.m.slots && e'.m.slots == e.slots && d'.seen == d.seen + {a.field}
            && (a.p.Null? ==>
                  && d'.seenOneofs == d.seenOneofs
                  && d'.m.oneofs == (if o in d.m.oneofs && d.m.oneofs[o].field == a.field then d.m.oneofs - {o} else d.m.oneofs)
                  && e'.m.oneofs == (if o in e.oneofs && e.oneofs[o].field == a.field then e.oneofs - {o} else e.oneofs))
            && (!a.p.Null? ==>
                  && a.p.Single? && b.p.Single? && o !in d.seenOneofs && d'.seenOneofs == d.seenOneofs + {o}
                  && (IsUnknown(a.p) ==> d'.m.oneofs == d.m.oneofs && e'.m.oneofs == e.oneofs)
                  && (!IsUnknown(a.p) ==>
                        && d'.m.oneofs == d.m.oneofs[o := Choice(a.field, a.p.item.v)]
                        && e'.m.oneofs == e.oneofs[o := Choice(a.field, b.p.item.v)]))
  {
  }

  /** An act on a member of a oneof. */
  lemma ChoiceReuse(mt: MessageType, base: Message, nulls: set<nat>, nulled: set<nat>, d: Decoded, e: Message, a: Act, b: Act)
    requires Shaped(mt, base) && Shaped(mt, d.m) && Shaped(mt, e) && PairedChoices(mt, base, nulled, d, e) && NullOf(a) <= nulls
    requires Alike(mt, a, b) && a.Assign? && a.field !in d.seen && mt.fields[a.field].card.Member?
    requires StoreInto(mt, a.field, a.p, d.m, d.seenOneofs).Some? && StoreInto(mt, a.field, b.p, e, d.seenOneofs).Some?
    ensures var d', e' := NextInto(mt, d, a), NextInto(mt, Decoded(e, d.seen, d.seenOneofs), b);
            && PairedChoices(mt, base, nulled + NullOf(a), d', e'.m)
            && (SameChoices(base, nulls, d', e'.m) <==> SameChoices(base, nulls, d, e) && HiddenAct(mt, base, nulls, a, b))
  {
    MemberStores(mt, d, e, a, b);
    var o := mt.fields[a.field].card.oneof;
    assert PairedChoice(mt, base, nulled, d, e, o);
    hide NextInto, Store, StoreInto;
    var d', e' := NextInto(mt, d, a), NextInto(mt, Decoded(e, d.seen, d.seenOneofs), b);
    if a.p.Null? {
      NullChoices(mt, base, nulls, nulled, d, e, a.field, o, d');
    } else {
      OtherChoices(mt, base, nulls, nulled, d, e, a.field, o, d', e'.m);
      assert nulled + NullOf(a) == nulled;
      assert PairedChoice(mt, base, nulled, d', e'.m, o);
      assert SameChoice(base, nulls, d', e'.m, o) <==> HiddenAct(mt, base, nulls, a, b);
    }
  }

  // ---------------------------------------------------------------- all acts

  predicate AllHidden(mt: MessageType, base: Message, nulls: set<nat>, acts: seq<Act>, others: seq<Act>)
    requires Shaped(mt, base) && AllAlike(mt, acts, others)
  {
    forall k :: 0 <= k < |acts| ==> HiddenAct(mt, base, nulls, acts[k], others[k])
  }

  function NullsOf(acts: seq<Act>): set<nat> {
    if acts == [] then {} else NullOf(acts[0]) + NullsOf(acts[1..])
  }

  /** One act, in or outside oneofs. */
  lemma StepReuse(mt: MessageType, base: Message, nulls: set<nat>, nulled: set<nat>, d: Decoded, e: Message, a: Act, b: Act)
    requires PairedSlots(mt, base, d, e) && PairedChoices(mt, base, nulled, d, e) && NullOf(a) <= nulls
    requires Alike(mt, a, b) && a.Assign? && a.field !in d.seen
    requires StoreInto(mt, a.field, a.p, d.m, d.seenOneofs).Some? && StoreInto(mt, a.field, b.p, e, d.seenOneofs).Some?
    ensures var d', e' := NextInto(mt, d, a), NextInto(mt, Decoded(e, d.seen, d.seenOneofs), b);
            && PairedSlots(mt, base, d', e'.m) && PairedChoices(mt, base, nulled + NullOf(a), d', e'.m)
            && (SameSlots(mt, d', e'.m) && SameChoices(base, nulls, d', e'.m) <==>
                SameSlots(mt, d, e) && SameChoices(base, nulls, d, e) && HiddenAct(mt, base, nulls, a, b))
  {
    var d', e' := NextInto(mt, d, a), NextInto(mt, Decoded(e, d.seen, d.seenOneofs), b);
    if mt.fields[a.field].card.Member? {
      ChoiceReuse(mt, base, nulls, nulled, d, e, a, b);
      MemberStores(mt, d, e, a, b);
      hide NextInto, HiddenAct, Store, StoreInto, PairedChoices, SameChoices;
      SlotsStay(mt, base, d, e, d', e'.m, a.field);
    } else {
      SlotReuse(mt, base, nulls, d, e, a, b);
      hide NextInto, HiddenAct, Store, StoreInto, PairedSlots, SameSlots, PairedChoices, SameChoices;
      ChoicesStay(mt, base, nulls, nulled, d, e, d', e'.m, a.field, a);
    }
  }

  lemma StepState(mt: MessageType, d: Decoded, e: Message, a: Act, b: Act)
    requires Shaped(mt, d.m) && Shaped(mt, e) && Alike(mt, a, b) && a.Assign?
    ensures var r, r' := StoreInto(mt, a.field, a.p, d.m, d.seenOneofs), StoreInto(mt, a.field, b.p, e, d.seenOneofs);
            r.Some? == r'.Some? && (r.Some? ==> r.value.1 == r'.value.1)
  {
    StoresAlike(mt, a.field, a.p, b.p, d.m, e, d.seenOneofs);
    StoresAlike(mt, a.field, b.p, b.p, e, e, d.seenOneofs);
  }

  lemma AllHiddenHead(mt: MessageType, base: Message, nulls: set<nat>, acts: seq<Act>, others: seq<Act>)
    requires Shaped(mt, base) && AllAlike(mt, acts, others) && acts != []
    ensures AllAlike(mt, acts[1..], others[1..])
    ensures AllHidden(mt, base, nulls, acts, others) <==>
            HiddenAct(mt, base, nulls, acts[0], others[0]) && AllHidden(mt, base, nulls, acts[1..], others[1..])
  {
    hide Alike, HiddenAct;
    assert forall k :: 1 <= k < |acts| ==> acts[k] == acts[1..][k - 1] && others[k] == others[1..][k - 1];
    assert AllAlike(mt, acts[1..], others[1..]);
    if AllHidden(mt, base, nulls, acts[1..], others[1..]) {
      forall k | 1 <= k < |acts| ensures HiddenAct(mt, base, nulls, acts[k], others[k]) {
        assert HiddenAct(mt, base, nulls, acts[1..][k - 1], others[1..][k - 1]);
      }
    }
  }

  /** The messages decoded into `base` and into nothing are equal exactly when all acts are hidden. */
  lemma {:induction false} RunsReuse(mt: MessageType, base: Message, nulls: set<nat>, nulled: set<nat>, acts: seq<Act>, others: seq<Act>,
                                     d: Decoded, e: Message)
    requires PairedSlots(mt, base, d, e) && PairedChoices(mt, base, nulled, d, e) && AllAlike(mt, acts, others)
    requires nulls == nulled + NullsOf(acts)
    requires RunInto(mt, acts, d).Some? && RunInto(mt, others, Decoded(e, d.seen, d.seenOneofs)).Some?
    ensures Cleared(mt, RunInto(mt, acts, d).value) == Cleared(mt, RunInto(mt, others, Decoded(e, d.seen, d.seenOneofs)).value) <==>
            SameSlots(mt, d, e) && SameChoices(base, nulls, d, e) && AllHidden(mt, base, nulls, acts, others)
    decreases |acts|
  {
    if acts == [] {
      assert nulls == nulled;
      EndReuse(mt, base, nulled, d, e);
    } else {
      var a, b := acts[0], others[0];
      assert Alike(mt, a, b);
      AllHiddenHead(mt, base, nulls, acts, others);
      if a.Skip? {
        SkipHidden(mt, base, nulls, a, b);
      }
      hide Store, StoreInto, Alike, AllHidden, PairedSlots, PairedChoices, SameSlots, SameChoices, Cleared, HiddenAct, NullOf;
      AlikeHead(mt, a, b);
      var e0 := Decoded(e, d.seen, d.seenOneofs);
      if a.Skip? {
        RunsReuse(mt, base, nulls, nulled, acts[1..], others[1..], d, e);
      } else {
        StepReuse(mt, base, nulls, nulled, d, e, a, b);
        StepState(mt, d, e, a, b);
        var d', e' := NextInto(mt, d, a), NextInto(mt, e0, b);
        RunsReuse(mt, base, nulls, nulled + NullOf(a), acts[1..], others[1..], d', e'.m);
      }
    }
  }

  lemma SkipHidden(mt: MessageType, base: Message, nulls: set<nat>, a: Act, b: Act)
    requires Shaped(mt, base) && Alike(mt, a, b) && a.Skip?
    ensures HiddenAct(mt, base, nulls, a, b) && NullOf(a) == {}
  {
  }

  // ---------------------------------------------------------------- all trees

  lemma {:induction false} ItemReuse(env: Env, kind: Kind, prior: Option<Message>, v: Tree, depth: nat)
    requires SchemaOk(env.schema) && Valid(v) && ItemWith(env, kind, prior, v, depth).Some? && ItemWith(env, kind, None, v, depth).Some?
    ensures ItemWith(env, kind, prior, v, depth) == ItemWith(env, kind, None, v, depth) <==>
            (kind.MessageKind? ==> HiddenObject(env.schema, kind.message, InnerStart(env.schema(kind.message), prior), v))
    decreases v, 1
  {
    hide SchemaOk, ScalarOf, ObjectWith, InnerStart, HiddenObject, TargetOk, Valid;
    if kind.MessageKind? {
      InnerIsTarget(env.schema(kind.message), prior);
      NoneStarts(env.schema(kind.message));
      ObjectReuse(env, kind.message, InnerStart(env.schema(kind.message), prior), v, depth);
    }
  }

  lemma NoneStarts(mt: MessageType)
    ensures InnerStart(mt, None) == Fresh(mt)
  {
  }

  lemma {:induction false} PayloadReuse(env: Env, f: Field, prior: Option<Message>, v: Tree, depth: nat)
    requires SchemaOk(env.schema) && Valid(v)
    requires PayloadWith(env, f, prior, v, depth).Some? && PayloadWith(env, f, None, v, depth).Some?
    ensures PayloadWith(env, f, prior, v, depth) == PayloadWith(env, f, None, v, depth) <==> HiddenPayload(env.schema, f, prior, v)
    decreases v, 2
  {
    hide SchemaOk, ItemWith, ListWith, PairsOf, InnerStart, HiddenObject;
    if v != Lit(NULL) && !f.card.StringMap? && !f.card.Repeated? {
      ItemReuse(env, f.kind, prior, v, depth);
    }
    if f.kind.MessageKind? && v == Lit(NULL) {
      NotAnObject(env.schema, f.kind.message, InnerStart(env.schema(f.kind.message), prior), v);
    }
  }

  lemma NotAnObject(schema: Schema, t: nat, base: Message, v: Tree)
    requires Valid(v) && Shaped(schema(t), base) && !v.Obj?
    ensures HiddenObject(schema, t, base, v)
  {
  }

  lemma {:induction false} MemberReuse(env: Env, t: nat, base: Message, nulls: set<nat>, key: bytes, v: Tree, depth: nat)
    requires SchemaOk(env.schema) && Valid(v) && Shaped(env.schema(t), base) && MemberWith(env, t, base, key, v, depth).Some?
    ensures var m := Fresh(env.schema(t));
            var a, b := MemberWith(env, t, base, key, v, depth), MemberWith(env, t, m, key, v, depth);
            && b.Some? && Alike(env.schema(t), a.value, b.value)
            && (HiddenAct(env.schema(t), base, nulls, a.value, b.value) <==> HiddenMember(env.schema, t, base, nulls, key, v))
            && NullOf(a.value) == (if Find(env.schema(t), key).Some? && v == Lit(NULL) then {Find(env.schema(t), key).value} else {})
    decreases v, 3
  {
    var mt := env.schema(t);
    var i := Find(mt, key);
    if i.Some? {
      assert Existing(mt.fields[i.value], Fresh(mt).slots[i.value]) == None;
    }
    hide SchemaOk, PayloadOf, PayloadWith, HiddenPayload, Lands, HoldsNothing, Existing, IsSingularEnum, FitsDepth, Find, Valid, Fresh;
    if i.Some? {
      var f := mt.fields[i.value];
      var prior := Existing(f, base.slots[i.value]);
      PayloadExact(env, f, prior, v, depth);
      PayloadExact(env, f, None, v, depth);
      UnknownLands(env, f, v, depth);
      PayloadReuse(env, f, prior, v, depth);
      OnlyNullIsNull(env, f, prior, v, depth);
    }
  }

  lemma OnlyNullIsNull(env: Env, f: Field, prior: Option<Message>, v: Tree, depth: nat)
    requires Valid(v) && PayloadWith(env, f, prior, v, depth).Some?
    ensures PayloadWith(env, f, prior, v, depth).value.Null? <==> v == Lit(NULL)
  {
    hide ItemWith, ListWith, PairsOf;
  }

  lemma {:induction false} ActsReuse(env: Env, t: nat, base: Message, nulls: set<nat>, ms: Members, depth: nat)
    requires SchemaOk(env.schema) && ValidMembers(ms) && Shaped(env.schema(t), base) && ActsWith(env, t, base, ms, depth).Some?
    ensures var a, b := ActsWith(env, t, base, ms, depth), ActsWith(env, t, Fresh(env.schema(t)), ms, depth);
            && b.Some? && AllAlike(env.schema(t), a.value, b.value)
            && (AllHidden(env.schema(t), base, nulls, a.value, b.value) <==> HiddenMembers(env.schema, t, base, nulls, ms))
            && NullsOf(a.value) == Nulls(env.schema(t), ms)
    decreases ms, 4
  {
    var mt := env.schema(t);
    assert Valid(ms.v);
    hide SchemaOk, MemberWith, HiddenMember, Alike, AllHidden, HiddenAct, Meaning, Valid, Find, Fresh, NullOf;
    MemberReuse(env, t, base, nulls, Meaning(ms.head.key), ms.v, depth);
    if ms.MoreMembers? {
      ActsReuse(env, t, base, nulls, ms.tail, depth);
    }
    var a, b := ActsWith(env, t, base, ms, depth), ActsWith(env, t, Fresh(mt), ms, depth);
    if ms.MoreMembers? {
      assert a.value[1..] == ActsWith(env, t, base, ms.tail, depth).value;
      assert b.value[1..] == ActsWith(env, t, Fresh(mt), ms.tail, depth).value;
    } else {
      assert a.value[1..] == [] && b.value[1..] == [];
    }
    AlikeFrom(mt, a.value, b.value);
    AllHiddenHead(mt, base, nulls, a.value, b.value);
    NoActsHidden(mt, base, nulls);
  }

  lemma NoActsHidden(mt: MessageType, base: Message, nulls: set<nat>)
    requires Shaped(mt, base)
    ensures AllAlike(mt, [], []) && AllHidden(mt, base, nulls, [], [])
  {
  }

  /** What was held does not show exactly when the object is hidden. */
  lemma {:induction false} ObjectReuse(env: Env, t: nat, base: Message, v: Tree, depth: nat)
    requires SchemaOk(env.schema) && Valid(v) && TargetOk(env.schema(t), base) && ObjectWith(env, t, base, v, depth).Some?
    ensures var m := Fresh(env.schema(t));
            && ObjectWith(env, t, m, v, depth).Some?
            && (ObjectWith(env, t, base, v, depth) == ObjectWith(env, t, m, v, depth) <==> HiddenObject(env.schema, t, base, v))
    decreases v, 0
  {
    var mt := env.schema(t);
    var m := Fresh(mt);
    ObjectsAlike(env, t, base, v, depth);
    ObjectsAlike(env, t, m, v, depth);
    if v.Obj? {
      var nulls := Nulls(mt, v.members);
      StartPaired(mt, base);
      StartChoices(mt, base, nulls);
      hide SchemaOk, ActsWith, RunInto, Cleared, HiddenMembers, AllHidden, AllAlike, PairedSlots, PairedChoices, PairedOneofs, SameSlots,
           SameChoices, SameOneofs, Nulls, NullsOf, Fresh;
      ActsReuse(env, t, base, nulls, v.members, depth + 1);
      var a, b := ActsWith(env, t, base, v.members, depth + 1), ActsWith(env, t, m, v.members, depth + 1);
      RunsReuse(mt, base, nulls, {}, a.value, b.value, Decoded(base, {}, {}), m);
    }
  }
}
