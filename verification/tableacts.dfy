/**
 The effect of acts on a target of the table decoder. What the target holds shows in two places only:
 where an unknown enum name has been let pass, and in a oneof that such a name claims.
 */
module TableActs {
  import opened Bytes
  import opened Schema
  import opened Generated
  import opened Acts
  import opened Table
  import opened TableMeanings

  predicate IsKnown(p: Payload) {
    !(p.Single? && p.item.Unknown?)
  }

  /** What a field outside oneofs holds after `p`: a discarded name leaves a plain field alone and unsets an optional one. */
  function SlotInto(f: Field, was: Slot, p: Payload): Slot {
    if IsKnown(p) then SlotOf(f, p) else if f.card.Optional? then Pointer(None) else was
  }

  /** The act gives the oneof `o` a choice, rather than only claiming it. */
  predicate Sets(mt: MessageType, a: Act, o: nat) {
    Populates(mt, a, o) && IsKnown(a.p)
  }

  /** A null has been given to field `i`. */
  ghost predicate Nulled(acts: seq<Act>, i: nat) {
    exists a :: a in acts && IsNulling(a, i)
  }

  predicate IsNulling(a: Act, i: nat) {
    a.Assign? && a.field == i && a.p.Null?
  }

  predicate Assigns(a: Act, i: nat) {
    a.Assign? && a.field == i
  }

  // ---------------------------------------------------------------- the state of the loop

  ghost predicate SlotNow(mt: MessageType, base: Message, done: seq<Act>, i: nat, slot: Slot)
    requires i < |mt.fields| == |base.slots|
  {
    && (forall a :: a in done && Assigns(a, i) && !mt.fields[i].card.Member? ==> slot == SlotInto(mt.fields[i], base.slots[i], a.p))
    && (mt.fields[i].card.Member? || (forall a :: a in done ==> !Assigns(a, i)) ==> slot == base.slots[i])
  }

  /** The oneof `o` holds the choice of the target, unless a null has removed it. */
  ghost predicate AsBefore(base: Message, acts: seq<Act>, oneofs: map<nat, Choice>, o: nat) {
    && (o in oneofs <==> o in base.oneofs && !Nulled(acts, base.oneofs[o].field))
    && (o in oneofs ==> oneofs[o] == base.oneofs[o])
  }

  ghost predicate OneofNow(mt: MessageType, base: Message, done: seq<Act>, oneofs: map<nat, Choice>, o: nat) {
    && (forall a :: a in done && Sets(mt, a, o) ==> o in oneofs && oneofs[o] == ChoiceOf(a))
    && ((forall a :: a in done ==> !Sets(mt, a, o)) ==> AsBefore(base, done, oneofs, o))
  }

  ghost predicate Now(mt: MessageType, base: Message, done: seq<Act>, d: Decoded) {
    && TargetOk(mt, base) && Shaped(mt, d.m)
    && (forall a :: a in done ==> Typed(mt, a))
    && (forall i :: i in d.seen <==> exists a :: a in done && Assigns(a, i))
    && (forall o :: o in d.seenOneofs <==> exists a :: a in done && Populates(mt, a, o))
    && (forall i :: 0 <= i < |mt.fields| ==> SlotNow(mt, base, done, i, d.m.slots[i]))
    && (forall o :: OneofNow(mt, base, done, d.m.oneofs, o))
  }

  lemma InMore(done: seq<Act>, a: Act)
    ensures forall b :: b in done + [a] <==> b in done || b == a
  {
  }

  lemma StartNow(mt: MessageType, base: Message)
    requires TargetOk(mt, base)
    ensures Now(mt, base, [], Decoded(base, {}, {}))
  {
    hide TargetOk;
    assert Shaped(mt, base) by { TargetShaped(mt, base); }
  }

  lemma TargetShaped(mt: MessageType, base: Message)
    requires TargetOk(mt, base)
    ensures Shaped(mt, base)
  {
  }

  lemma NulledMore(done: seq<Act>, a: Act, i: nat)
    ensures Nulled(done + [a], i) <==> Nulled(done, i) || IsNulling(a, i)
  {
    InMore(done, a);
    hide IsNulling;
    if Nulled(done, i) {
      var b :| b in done && IsNulling(b, i);
      assert b in done + [a];
    }
    if IsNulling(a, i) {
      assert a in done + [a];
    }
  }

  lemma SkipNow(mt: MessageType, base: Message, done: seq<Act>, d: Decoded)
    requires Now(mt, base, done, d)
    ensures Now(mt, base, done + [Skip], d)
  {
    InMore(done, Skip);
    forall i | 0 <= i < |mt.fields| ensures SlotNow(mt, base, done + [Skip], i, d.m.slots[i]) {
      assert SlotNow(mt, base, done, i, d.m.slots[i]);
    }
    forall o ensures OneofNow(mt, base, done + [Skip], d.m.oneofs, o) {
      assert OneofNow(mt, base, done, d.m.oneofs, o);
      if o in base.oneofs {
        NulledMore(done, Skip, base.oneofs[o].field);
      }
    }
    forall i ensures i in d.seen <==> exists a :: a in done + [Skip] && Assigns(a, i) {
      if i in d.seen {
        var a :| a in done && Assigns(a, i);
        assert a in done + [Skip];
      }
    }
    forall o ensures o in d.seenOneofs <==> exists a :: a in done + [Skip] && Populates(mt, a, o) {
      if o in d.seenOneofs {
        var a :| a in done && Populates(mt, a, o);
        assert a in done + [Skip];
      }
    }
  }

  /** Storing succeeds exactly when the act is compatible with the earlier ones. */
  lemma StoresIf(mt: MessageType, base: Message, done: seq<Act>, d: Decoded, a: Act)
    requires Now(mt, base, done, d) && a.Assign? && Typed(mt, a)
    ensures a.field < |mt.fields| && Shaped(mt, d.m)
    ensures FreeOf(mt, done, a) <==> (a.field !in d.seen && StoreInto(mt, a.field, a.p, d.m, d.seenOneofs).Some?)
  {
    if a.field in d.seen {
      var b :| b in done && Assigns(b, a.field);
      assert !Compatible(mt, b, a);
    } else if mt.fields[a.field].card.Member? && !a.p.Null? {
      var o := mt.fields[a.field].card.oneof;
      assert Populates(mt, a, o);
      if o in d.seenOneofs {
        var b :| b in done && Populates(mt, b, o);
        assert !Compatible(mt, b, a);
      }
    }
  }

  /** What storing does to the slots. */
  lemma SlotsAfter(mt: MessageType, base: Message, done: seq<Act>, d: Decoded, a: Act, i: nat)
    requires Now(mt, base, done, d) && a.Assign? && Typed(mt, a) && i < |mt.fields| && a.field < |mt.fields|
    requires a.field !in d.seen && StoreInto(mt, a.field, a.p, d.m, d.seenOneofs).Some?
    ensures var m' := StoreInto(mt, a.field, a.p, d.m, d.seenOneofs).value.0;
            |m'.slots| == |mt.fields| && SlotNow(mt, base, done + [a], i, m'.slots[i])
  {
    InMore(done, a);
    assert SlotNow(mt, base, done, i, d.m.slots[i]);
    hide SlotOf;
    if i == a.field {
      assert forall b :: b in done ==> !Assigns(b, i);
      assert a in done + [a] && Assigns(a, i);
    }
  }

  /** What storing does to the oneofs: it makes a choice, removes one, or leaves them alone. */
  lemma OneofsAfter(mt: MessageType, base: Message, done: seq<Act>, d: Decoded, a: Act)
    requires Now(mt, base, done, d) && a.Assign? && Typed(mt, a) && a.field < |mt.fields|
    requires a.field !in d.seen && StoreInto(mt, a.field, a.p, d.m, d.seenOneofs).Some?
    ensures var (m', o') := StoreInto(mt, a.field, a.p, d.m, d.seenOneofs).value;
            && (forall o :: o in o' <==> o in d.seenOneofs || Populates(mt, a, o))
            && (forall o :: Sets(mt, a, o) ==> o in m'.oneofs && m'.oneofs[o] == ChoiceOf(a))
            && (forall o :: !Sets(mt, a, o) ==>
                  && (o in m'.oneofs <==> o in d.m.oneofs && !(IsNulling(a, d.m.oneofs[o].field) && mt.fields[a.field].card == Member(o)))
                  && (o in m'.oneofs ==> m'.oneofs[o] == d.m.oneofs[o]))
  {
  }

  lemma OneofAfter(mt: MessageType, base: Message, done: seq<Act>, d: Decoded, a: Act, o: nat)
    requires Now(mt, base, done, d) && a.Assign? && Typed(mt, a) && a.field < |mt.fields|
    requires a.field !in d.seen && StoreInto(mt, a.field, a.p, d.m, d.seenOneofs).Some?
    requires FreeOf(mt, done, a)
    ensures OneofNow(mt, base, done + [a], StoreInto(mt, a.field, a.p, d.m, d.seenOneofs).value.0.oneofs, o)
  {
    var oneofs := StoreInto(mt, a.field, a.p, d.m, d.seenOneofs).value.0.oneofs;
    InMore(done, a);
    OneofsAfter(mt, base, done, d, a);
    assert OneofNow(mt, base, done, d.m.oneofs, o);
    forall b | b in done + [a] && Sets(mt, b, o) ensures o in oneofs && oneofs[o] == ChoiceOf(b) {
      if b != a {
        EarlierStays(mt, base, done, d, a, b, o);
      }
    }
    if forall b :: b in done + [a] ==> !Sets(mt, b, o) {
      assert a in done + [a] && forall b :: b in done ==> b in done + [a];
      hide Now, StoreInto, FreeOf, Nulled, Typed, ChoiceOf, Populates;
      if o in base.oneofs {
        NulledMore(done, a, base.oneofs[o].field);
        NowTarget(mt, base, done, d);
        BaseMember(mt, base, o);
      }
    }
  }

  lemma NowTarget(mt: MessageType, base: Message, done: seq<Act>, d: Decoded)
    requires Now(mt, base, done, d)
    ensures TargetOk(mt, base)
  {
  }

  /** What an earlier act has set stays, since neither the field nor the oneof occurs again. */
  lemma EarlierStays(mt: MessageType, base: Message, done: seq<Act>, d: Decoded, a: Act, b: Act, o: nat)
    requires Now(mt, base, done, d) && a.Assign? && Typed(mt, a) && a.field < |mt.fields|
    requires a.field !in d.seen && StoreInto(mt, a.field, a.p, d.m, d.seenOneofs).Some?
    requires FreeOf(mt, done, a) && b in done && Sets(mt, b, o)
    ensures var oneofs := StoreInto(mt, a.field, a.p, d.m, d.seenOneofs).value.0.oneofs;
            o in oneofs && oneofs[o] == ChoiceOf(b)
  {
    OneofsAfter(mt, base, done, d, a);
    assert OneofNow(mt, base, done, d.m.oneofs, o);
    if Sets(mt, a, o) {
      SetsAlone(mt, done, a, o);
    }
    assert Typed(mt, b) && Assigns(b, b.field);
  }

  lemma BaseMember(mt: MessageType, base: Message, o: nat)
    requires TargetOk(mt, base) && o in base.oneofs
    ensures base.oneofs[o].field < |mt.fields| && mt.fields[base.oneofs[o].field].card == Member(o)
  {
  }

  /** Where an act sets a oneof, no earlier one does. */
  lemma SetsAlone(mt: MessageType, done: seq<Act>, a: Act, o: nat)
    requires FreeOf(mt, done, a) && Sets(mt, a, o)
    ensures forall b :: b in done ==> !Sets(mt, b, o)
  {
    forall b | b in done ensures !Sets(mt, b, o) {
      assert Compatible(mt, b, a);
    }
  }

  lemma StoreNow(mt: MessageType, base: Message, done: seq<Act>, d: Decoded, a: Act)
    requires Now(mt, base, done, d) && a.Assign? && Typed(mt, a) && a.field < |mt.fields|
    requires a.field !in d.seen && StoreInto(mt, a.field, a.p, d.m, d.seenOneofs).Some? && FreeOf(mt, done, a)
    ensures var (m', o') := StoreInto(mt, a.field, a.p, d.m, d.seenOneofs).value;
            Now(mt, base, done + [a], Decoded(m', d.seen + {a.field}, o'))
  {
    var (m', o') := StoreInto(mt, a.field, a.p, d.m, d.seenOneofs).value;
    InMore(done, a);
    OneofsAfter(mt, base, done, d, a);
    forall i | 0 <= i < |mt.fields| ensures |m'.slots| == |mt.fields| && SlotNow(mt, base, done + [a], i, m'.slots[i]) {
      SlotsAfter(mt, base, done, d, a, i);
    }
    forall o ensures OneofNow(mt, base, done + [a], m'.oneofs, o) {
      OneofAfter(mt, base, done, d, a, o);
    }
    hide StoreInto, FreeOf, SlotNow, OneofNow, Typed, TargetOk;
    assert a in done + [a] && Assigns(a, a.field);
    forall i ensures i in d.seen + {a.field} <==> exists b :: b in done + [a] && Assigns(b, i) {
      if i in d.seen {
        var b :| b in done && Assigns(b, i);
        assert b in done + [a];
      }
    }
    forall o ensures o in o' <==> exists b :: b in done + [a] && Populates(mt, b, o) {
      if o in d.seenOneofs {
        var b :| b in done && Populates(mt, b, o);
        assert b in done + [a];
      }
    }
  }

  lemma {:induction false} RunFrom(mt: MessageType, base: Message, done: seq<Act>, acts: seq<Act>, d: Decoded)
    requires Now(mt, base, done, d) && NoDuplicates(mt, done) && Shaped(mt, d.m)
    requires forall a :: a in acts ==> Typed(mt, a)
    ensures var r := RunInto(mt, acts, d);
            && (r.Some? <==> NoDuplicates(mt, done + acts))
            && (r.Some? ==> Now(mt, base, done + acts, r.value))
    decreases |acts|
  {
    hide Now, StoreInto, Typed, NoDuplicates, FreeOf;
    if acts == [] {
      assert done + acts == done;
    } else {
      var a := acts[0];
      assert done + acts == done + [a] + acts[1..];
      AppendDuplicates(mt, done, a);
      if a.Skip? {
        SkipNow(mt, base, done, d);
        RunFrom(mt, base, done + [a], acts[1..], d);
      } else {
        TypedField(mt, a);
        StoresIf(mt, base, done, d, a);
        if a.field in d.seen || StoreInto(mt, a.field, a.p, d.m, d.seenOneofs).None? {
          if NoDuplicates(mt, done + [a] + acts[1..]) {
            PrefixDuplicates(mt, done + [a], acts[1..]);
            assert false;
          }
        } else {
          StoreNow(mt, base, done, d, a);
          var (m', o') := StoreInto(mt, a.field, a.p, d.m, d.seenOneofs).value;
          RunFrom(mt, base, done + [a], acts[1..], Decoded(m', d.seen + {a.field}, o'));
        }
      }
    }
  }

  // ---------------------------------------------------------------- the resulting message

  ghost predicate SlotAfter(mt: MessageType, base: Message, acts: seq<Act>, i: nat, slot: Slot)
    requires i < |mt.fields| == |base.slots|
  {
    && (forall a :: a in acts && Assigns(a, i) && !mt.fields[i].card.Member? ==> slot == SlotInto(mt.fields[i], base.slots[i], a.p))
    && (mt.fields[i].card.Member? || (forall a :: a in acts ==> !Assigns(a, i)) ==> slot == ZeroSlot(mt.fields[i]))
  }

  ghost predicate OneofFinal(mt: MessageType, base: Message, acts: seq<Act>, oneofs: map<nat, Choice>, o: nat) {
    && (forall a :: a in acts && Sets(mt, a, o) ==> o in oneofs && oneofs[o] == ChoiceOf(a))
    && ((forall a :: a in acts ==> !Sets(mt, a, o)) && (exists a :: a in acts && Populates(mt, a, o)) ==> AsBefore(base, acts, oneofs, o))
    && ((forall a :: a in acts ==> !Populates(mt, a, o)) ==> o !in oneofs)
  }

  /** `m` holds what the acts assign to a target that held `base`. */
  ghost predicate Leaves(mt: MessageType, base: Message, acts: seq<Act>, m: Message)
    requires Shaped(mt, base)
  {
    && Shaped(mt, m)
    && (forall i :: 0 <= i < |mt.fields| ==> SlotAfter(mt, base, acts, i, m.slots[i]))
    && (forall o :: OneofFinal(mt, base, acts, m.oneofs, o))
  }

  lemma SlotUnique(mt: MessageType, base: Message, acts: seq<Act>, i: nat, s: Slot, t: Slot)
    requires i < |mt.fields| == |base.slots| && SlotAfter(mt, base, acts, i, s) && SlotAfter(mt, base, acts, i, t)
    ensures s == t
  {
    hide SlotInto, ZeroSlot;
  }

  lemma OneofUnique(mt: MessageType, base: Message, acts: seq<Act>, s: map<nat, Choice>, t: map<nat, Choice>, o: nat)
    requires OneofFinal(mt, base, acts, s, o) && OneofFinal(mt, base, acts, t, o)
    ensures (o in s <==> o in t) && (o in s ==> s[o] == t[o])
  {
    hide Populates, ChoiceOf, Nulled;
  }

  lemma LeavesUnique(mt: MessageType, base: Message, acts: seq<Act>, m: Message, n: Message)
    requires Shaped(mt, base) && Leaves(mt, base, acts, m) && Leaves(mt, base, acts, n)
    ensures m == n
  {
    hide SlotAfter, OneofFinal;
    forall i | 0 <= i < |mt.fields| ensures m.slots[i] == n.slots[i] {
      SlotUnique(mt, base, acts, i, m.slots[i], n.slots[i]);
    }
    assert m.slots == n.slots;
    forall o ensures (o in m.oneofs <==> o in n.oneofs) && (o in m.oneofs ==> m.oneofs[o] == n.oneofs[o]) {
      OneofUnique(mt, base, acts, m.oneofs, n.oneofs, o);
    }
    assert m.oneofs == n.oneofs;
  }

  /** Behind the last act, clearing what did not occur leaves what the acts assign. */
  lemma ClearedLeaves(mt: MessageType, base: Message, acts: seq<Act>, d: Decoded)
    requires Now(mt, base, acts, d) && Shaped(mt, d.m) && Shaped(mt, base)
    ensures Leaves(mt, base, acts, Cleared(mt, d))
  {
    forall i | 0 <= i < |mt.fields| ensures SlotAfter(mt, base, acts, i, Cleared(mt, d).slots[i]) {
      SlotCleared(mt, base, acts, d, i);
    }
    forall o ensures OneofFinal(mt, base, acts, Cleared(mt, d).oneofs, o) {
      OneofCleared(mt, base, acts, d, o);
    }
  }

  lemma SlotCleared(mt: MessageType, base: Message, acts: seq<Act>, d: Decoded, i: nat)
    requires Now(mt, base, acts, d) && Shaped(mt, d.m) && Shaped(mt, base) && i < |mt.fields|
    ensures SlotAfter(mt, base, acts, i, Cleared(mt, d).slots[i])
  {
    assert SlotNow(mt, base, acts, i, d.m.slots[i]);
    hide SlotInto;
  }

  lemma OneofCleared(mt: MessageType, base: Message, acts: seq<Act>, d: Decoded, o: nat)
    requires Now(mt, base, acts, d) && Shaped(mt, d.m)
    ensures OneofFinal(mt, base, acts, Cleared(mt, d).oneofs, o)
  {
    assert OneofNow(mt, base, acts, d.m.oneofs, o);
    if (forall a :: a in acts ==> !Populates(mt, a, o)) && o in d.m.oneofs {
      BaseMember(mt, base, o);
    }
  }

  /**
   The loop of the table decoder accepts acts exactly if none assigns a field twice or claims a oneof
   twice, and with the clearing behind it leaves just what they assign to the target.
   */
  lemma RunIntoExact(mt: MessageType, base: Message, acts: seq<Act>, m: Message)
    requires Shaped(mt, base) && TargetOk(mt, base) && forall a :: a in acts ==> Typed(mt, a)
    ensures RunInto(mt, acts, Decoded(base, {}, {})).Some? <==> NoDuplicates(mt, acts)
    ensures (RunInto(mt, acts, Decoded(base, {}, {})).Some? && Cleared(mt, RunInto(mt, acts, Decoded(base, {}, {})).value) == m) <==>
            NoDuplicates(mt, acts) && Leaves(mt, base, acts, m)
  {
    hide Now, TargetOk, RunInto, Cleared, Leaves, Typed;
    StartNow(mt, base);
    RunFrom(mt, base, [], acts, Decoded(base, {}, {}));
    assert [] + acts == acts;
    var r := RunInto(mt, acts, Decoded(base, {}, {}));
    if r.Some? {
      ClearedLeaves(mt, base, acts, r.value);
      if Leaves(mt, base, acts, m) {
        LeavesUnique(mt, base, acts, m, Cleared(mt, r.value));
      }
    }
  }
}
