/**
 The effect of an object on a message, as a sequence of acts: each member either assigns a decoded
 payload to a field or is skipped. Acceptance and the resulting message depend on which acts there
 are and not on their order.
 */
module Acts {
  import opened Bytes
  import opened Schema
  import opened Generated

  datatype Act = Assign(field: nat, p: Payload) | Skip

  /** The acts of the decoder's loop, applied from the left with its duplicate checks. */
  function Run(mt: MessageType, acts: seq<Act>, seen: set<nat>, seenOneofs: set<nat>, m: Message): (r: Option<Message>)
    requires Shaped(mt, m)
    ensures r.Some? ==> Shaped(mt, r.value)
  {
    if acts == [] then Some(m)
    else
      match acts[0]
      case Skip => Run(mt, acts[1..], seen, seenOneofs, m)
      case Assign(i, p) =>
        if i >= |mt.fields| || i in seen then None
        else
          match Store(mt, i, p, m, seenOneofs)
          case None => None
          case Some((m', o')) => Run(mt, acts[1..], seen + {i}, o', m')
  }

  /** Acts a decoder can come up with for this type. */
  predicate Typed(mt: MessageType, a: Act) {
    a.Assign? ==> a.field < |mt.fields| && (mt.fields[a.field].card.Member? ==> a.p.Null? || a.p.Single?)
  }

  /** The act populates the oneof `o`. */
  predicate Populates(mt: MessageType, a: Act, o: nat) {
    a.Assign? && a.field < |mt.fields| && mt.fields[a.field].card == Member(o) && !a.p.Null?
  }

  // ---------------------------------------------------------------- duplicates

  /** No field is assigned twice and no oneof is populated twice. */
  ghost predicate Compatible(mt: MessageType, a: Act, b: Act) {
    && (a.Assign? && b.Assign? ==> a.field != b.field)
    && (forall o :: !(Populates(mt, a, o) && Populates(mt, b, o)))
  }

  ghost predicate NoDuplicates(mt: MessageType, acts: seq<Act>) {
    forall i, j :: 0 <= i < j < |acts| ==> Compatible(mt, acts[i], acts[j])
  }

  // ---------------------------------------------------------------- the resulting message

  /** `m` holds what the acts assign and is fresh elsewhere. */
  ghost predicate Describes(mt: MessageType, acts: seq<Act>, m: Message) {
    && Shaped(mt, m)
    && (forall i :: 0 <= i < |mt.fields| ==> SlotDescribed(mt, acts, i, m.slots[i]))
    && (forall a, o :: a in acts && Populates(mt, a, o) ==> o in m.oneofs && m.oneofs[o] == ChoiceOf(a))
    && (forall o :: o in m.oneofs ==> exists a :: a in acts && Populates(mt, a, o))
  }

  function ChoiceOf(a: Act): Choice {
    if a.Assign? && a.p.Single? then Choice(a.field, Stored(a.p.item)) else Choice(0, Num(0))
  }

  ghost predicate SlotDescribed(mt: MessageType, acts: seq<Act>, i: nat, slot: Slot)
    requires i < |mt.fields|
  {
    if mt.fields[i].card.Member? then slot == ZeroSlot(mt.fields[i])
    else
      && (forall a :: a in acts && a.Assign? && a.field == i ==> slot == SlotOf(mt.fields[i], a.p))
      && ((forall a :: a in acts && a.Assign? ==> a.field != i) ==> slot == ZeroSlot(mt.fields[i]))
  }

  /** There is at most one such message. */
  lemma DescribesUnique(mt: MessageType, acts: seq<Act>, m: Message, n: Message)
    requires Describes(mt, acts, m) && Describes(mt, acts, n)
    ensures m == n
  {
    forall i | 0 <= i < |mt.fields| ensures m.slots[i] == n.slots[i] {
      assert SlotDescribed(mt, acts, i, m.slots[i]) && SlotDescribed(mt, acts, i, n.slots[i]);
    }
    assert m.slots == n.slots;
    assert m.oneofs.Keys == n.oneofs.Keys;
    forall o | o in m.oneofs ensures m.oneofs[o] == n.oneofs[o] {
      var a :| a in acts && Populates(mt, a, o);
    }
    assert m.oneofs == n.oneofs;
  }

  // ---------------------------------------------------------------- the loop is exact

  /** The state of the loop after the acts `done`. */
  ghost predicate State(mt: MessageType, done: seq<Act>, seen: set<nat>, seenOneofs: set<nat>, m: Message) {
    && Describes(mt, done, m)
    && (forall a :: a in done ==> Typed(mt, a))
    && (forall i :: i in seen <==> exists a :: a in done && a.Assign? && a.field == i)
    && (forall o :: o in seenOneofs <==> exists a :: a in done && Populates(mt, a, o))
  }

  ghost predicate FreeOf(mt: MessageType, done: seq<Act>, a: Act) {
    forall b :: b in done ==> Compatible(mt, b, a)
  }

  lemma SkipState(mt: MessageType, done: seq<Act>, seen: set<nat>, seenOneofs: set<nat>, m: Message)
    requires State(mt, done, seen, seenOneofs, m)
    ensures State(mt, done + [Skip], seen, seenOneofs, m)
  {
    var d := done + [Skip];
    assert forall a :: a in d <==> a in done || a == Skip;
    forall i | 0 <= i < |mt.fields| ensures SlotDescribed(mt, d, i, m.slots[i]) {
      assert SlotDescribed(mt, done, i, m.slots[i]);
    }
    forall o | o in m.oneofs ensures exists a :: a in d && Populates(mt, a, o) {
      var a :| a in done && Populates(mt, a, o);
      assert a in d;
    }
    forall i ensures i in seen <==> exists a :: a in d && a.Assign? && a.field == i {
      if i in seen {
        var a :| a in done && a.Assign? && a.field == i;
        assert a in d;
      }
    }
    forall o ensures o in seenOneofs <==> exists a :: a in d && Populates(mt, a, o) {
      if o in seenOneofs {
        var a :| a in done && Populates(mt, a, o);
        assert a in d;
      }
    }
  }

  /** Storing succeeds exactly when the act is compatible with the earlier ones. */
  lemma StoreDecides(mt: MessageType, done: seq<Act>, a: Act, seen: set<nat>, seenOneofs: set<nat>, m: Message)
    requires State(mt, done, seen, seenOneofs, m) && a.Assign? && Typed(mt, a)
    ensures FreeOf(mt, done, a) <==> (a.field !in seen && Store(mt, a.field, a.p, m, seenOneofs).Some?)
  {
    if a.field in seen {
      var b :| b in done && b.Assign? && b.field == a.field;
      assert !Compatible(mt, b, a);
    } else if mt.fields[a.field].card.Member? && !a.p.Null? {
      var o := mt.fields[a.field].card.oneof;
      assert Populates(mt, a, o);
      if o in seenOneofs {
        var b :| b in done && Populates(mt, b, o);
        assert !Compatible(mt, b, a);
      }
    }
  }

  lemma StoreState(mt: MessageType, done: seq<Act>, a: Act, seen: set<nat>, seenOneofs: set<nat>, m: Message)
    requires State(mt, done, seen, seenOneofs, m) && a.Assign? && Typed(mt, a)
    requires a.field !in seen && Store(mt, a.field, a.p, m, seenOneofs).Some?
    ensures var (m', o') := Store(mt, a.field, a.p, m, seenOneofs).value;
            State(mt, done + [a], seen + {a.field}, o', m')
  {
    var d := done + [a];
    var (m', o') := Store(mt, a.field, a.p, m, seenOneofs).value;
    assert forall b :: b in d <==> b in done || b == a;
    assert a in d;
    StoreSlots(mt, done, a, seen, seenOneofs, m);
    StoreOneofs(mt, done, a, seen, seenOneofs, m);
    forall i ensures i in seen + {a.field} <==> exists b :: b in d && b.Assign? && b.field == i {
      if i in seen {
        var b :| b in done && b.Assign? && b.field == i;
        assert b in d;
      }
    }
  }

  lemma StoreSlots(mt: MessageType, done: seq<Act>, a: Act, seen: set<nat>, seenOneofs: set<nat>, m: Message)
    requires State(mt, done, seen, seenOneofs, m) && a.Assign? && Typed(mt, a)
    requires a.field !in seen && Store(mt, a.field, a.p, m, seenOneofs).Some?
    ensures var m' := Store(mt, a.field, a.p, m, seenOneofs).value.0;
            forall i :: 0 <= i < |mt.fields| ==> SlotDescribed(mt, done + [a], i, m'.slots[i])
  {
    var m' := Store(mt, a.field, a.p, m, seenOneofs).value.0;
    var d := done + [a];
    assert forall b :: b in d <==> b in done || b == a;
    forall i | 0 <= i < |mt.fields| ensures SlotDescribed(mt, d, i, m'.slots[i]) {
      assert SlotDescribed(mt, done, i, m.slots[i]);
      assert forall b :: b in done && b.Assign? && b.field == i ==> b in d;
      if i == a.field {
        assert a in d;
      }
    }
  }

  lemma StoreOneofs(mt: MessageType, done: seq<Act>, a: Act, seen: set<nat>, seenOneofs: set<nat>, m: Message)
    requires State(mt, done, seen, seenOneofs, m) && a.Assign? && Typed(mt, a)
    requires a.field !in seen && Store(mt, a.field, a.p, m, seenOneofs).Some?
    ensures var (m', o') := Store(mt, a.field, a.p, m, seenOneofs).value;
            var d := done + [a];
            && (forall b, o :: b in d && Populates(mt, b, o) ==> o in m'.oneofs && m'.oneofs[o] == ChoiceOf(b))
            && (forall o :: o in m'.oneofs ==> exists b :: b in d && Populates(mt, b, o))
            && (forall o :: o in o' <==> exists b :: b in d && Populates(mt, b, o))
  {
    OneofEffect(mt, done, a, seen, seenOneofs, m);
    var (m', o') := Store(mt, a.field, a.p, m, seenOneofs).value;
    var d := done + [a];
    assert forall b :: b in d <==> b in done || b == a;
    hide Store, ChoiceOf, Populates, Typed, SlotDescribed, Shaped;
    forall o | o in m'.oneofs ensures exists b :: b in d && Populates(mt, b, o) {
      if o in m.oneofs {
        var b :| b in done && Populates(mt, b, o);
        assert b in d;
      } else {
        assert Populates(mt, a, o) && a in d;
      }
    }
    forall o ensures o in o' <==> exists b :: b in d && Populates(mt, b, o) {
      if o in seenOneofs {
        var b :| b in done && Populates(mt, b, o);
        assert b in d;
      } else if o in o' {
        assert Populates(mt, a, o) && a in d;
      }
    }
  }

  /**
   An act populates the one oneof of its field, which is not populated yet, or leaves all oneofs alone;
   so does a null, since the field it names has not been assigned before.
   */
  lemma OneofEffect(mt: MessageType, done: seq<Act>, a: Act, seen: set<nat>, seenOneofs: set<nat>, m: Message)
    requires State(mt, done, seen, seenOneofs, m) && a.Assign? && Typed(mt, a)
    requires a.field !in seen && Store(mt, a.field, a.p, m, seenOneofs).Some?
    ensures var (m', o') := Store(mt, a.field, a.p, m, seenOneofs).value;
            || (m'.oneofs == m.oneofs && o' == seenOneofs && forall p :: !Populates(mt, a, p))
            || (mt.fields[a.field].card.Member? &&
                var o := mt.fields[a.field].card.oneof;
                && o !in seenOneofs && m'.oneofs == m.oneofs[o := ChoiceOf(a)] && o' == seenOneofs + {o}
                && forall p :: Populates(mt, a, p) <==> p == o)
  {
    if mt.fields[a.field].card.Member? && a.p.Null? {
      var o := mt.fields[a.field].card.oneof;
      if o in m.oneofs {
        var b :| b in done && Populates(mt, b, o);
        assert m.oneofs[o] == ChoiceOf(b);
        assert b.field in seen;
      }
    }
  }

  lemma {:induction false} RunExactFrom(mt: MessageType, done: seq<Act>, acts: seq<Act>, seen: set<nat>, seenOneofs: set<nat>, m: Message)
    requires State(mt, done, seen, seenOneofs, m) && NoDuplicates(mt, done)
    requires forall a :: a in acts ==> Typed(mt, a)
    ensures var r := Run(mt, acts, seen, seenOneofs, m);
            && (r.Some? <==> NoDuplicates(mt, done + acts))
            && (r.Some? ==> Describes(mt, done + acts, r.value))
    decreases |acts|
  {
    hide State, Describes, Store, Typed;
    StateDescribes(mt, done, seen, seenOneofs, m);
    if acts == [] {
      assert done + acts == done;
    } else {
      var a := acts[0];
      assert done + acts == done + [a] + acts[1..];
      AppendDuplicates(mt, done, a);
      if a.Skip? {
        SkipState(mt, done, seen, seenOneofs, m);
        RunExactFrom(mt, done + [a], acts[1..], seen, seenOneofs, m);
      } else {
        TypedField(mt, a);
        StoreDecides(mt, done, a, seen, seenOneofs, m);
        if a.field in seen || Store(mt, a.field, a.p, m, seenOneofs).None? {
          if NoDuplicates(mt, done + [a] + acts[1..]) {
            PrefixDuplicates(mt, done + [a], acts[1..]);
            assert false;
          }
        } else {
          StoreState(mt, done, a, seen, seenOneofs, m);
          var (m', o') := Store(mt, a.field, a.p, m, seenOneofs).value;
          RunExactFrom(mt, done + [a], acts[1..], seen + {a.field}, o', m');
        }
      }
    }
  }

  lemma StateDescribes(mt: MessageType, done: seq<Act>, seen: set<nat>, seenOneofs: set<nat>, m: Message)
    requires State(mt, done, seen, seenOneofs, m)
    ensures Describes(mt, done, m) && Shaped(mt, m)
  {
  }

  lemma TypedField(mt: MessageType, a: Act)
    requires Typed(mt, a) && a.Assign?
    ensures a.field < |mt.fields|
  {
  }

  lemma AppendDuplicates(mt: MessageType, done: seq<Act>, a: Act)
    requires NoDuplicates(mt, done)
    ensures NoDuplicates(mt, done + [a]) <==> FreeOf(mt, done, a)
    ensures a.Skip? ==> FreeOf(mt, done, a)
  {
    var d := done + [a];
    if NoDuplicates(mt, d) {
      forall b | b in done ensures Compatible(mt, b, a) {
        var i :| 0 <= i < |done| && done[i] == b;
        assert Compatible(mt, d[i], d[|done|]);
      }
    }
    if FreeOf(mt, done, a) {
      forall i, j | 0 <= i < j < |d| ensures Compatible(mt, d[i], d[j]) {
        if j == |done| {
          assert done[i] in done;
        } else {
          assert Compatible(mt, done[i], done[j]);
        }
      }
    }
  }

  lemma PrefixDuplicates(mt: MessageType, a: seq<Act>, b: seq<Act>)
    requires NoDuplicates(mt, a + b)
    ensures NoDuplicates(mt, a)
  {
    forall i, j | 0 <= i < j < |a| ensures Compatible(mt, a[i], a[j]) {
      assert Compatible(mt, (a + b)[i], (a + b)[j]);
    }
  }

  lemma FreshState(mt: MessageType)
    ensures State(mt, [], {}, {}, Fresh(mt))
  {
  }

  /**
   Duplicate detection is exact: on a fresh message the loop succeeds if and only if no field is
   assigned twice and no oneof is populated twice, and then the message holds just what was assigned.
   */
  lemma RunExact(mt: MessageType, acts: seq<Act>)
    requires forall a :: a in acts ==> Typed(mt, a)
    ensures var r := Run(mt, acts, {}, {}, Fresh(mt));
            && (r.Some? <==> NoDuplicates(mt, acts))
            && (r.Some? ==> Describes(mt, acts, r.value))
  {
    FreshState(mt);
    RunExactFrom(mt, [], acts, {}, {}, Fresh(mt));
    assert [] + acts == acts;
  }

  // ---------------------------------------------------------------- order

  /** Whether duplicates occur does not depend on the order of the acts. */
  lemma NoDuplicatesPermutes(mt: MessageType, acts: seq<Act>, others: seq<Act>)
    requires multiset(acts) == multiset(others) && NoDuplicates(mt, acts)
    ensures NoDuplicates(mt, others)
  {
    forall i, j | 0 <= i < j < |others| ensures Compatible(mt, others[i], others[j]) {
      var a, b := others[i], others[j];
      TwoOccurrences(others, i, j);
      var k, l := FindTwo(acts, a, b);
      if k < l {
        assert Compatible(mt, acts[k], acts[l]);
      } else {
        assert Compatible(mt, acts[l], acts[k]);
      }
    }
  }

  lemma TwoOccurrences<T>(s: seq<T>, i: nat, j: nat)
    requires i < j < |s|
    ensures multiset{s[i], s[j]} <= multiset(s)
  {
    assert s == s[..i] + [s[i]] + s[i + 1..j] + [s[j]] + s[j + 1..];
  }

  lemma FindTwo<T>(s: seq<T>, a: T, b: T) returns (k: nat, l: nat)
    requires multiset{a, b} <= multiset(s)
    ensures k != l && k < |s| && l < |s| && s[k] == a && s[l] == b
  {
    assert a in multiset(s);
    k :| 0 <= k < |s| && s[k] == a;
    var rest := s[..k] + s[k + 1..];
    assert s == s[..k] + [a] + s[k + 1..];
    assert multiset(s) == multiset(rest) + multiset{a};
    assert b in multiset(rest);
    var j :| 0 <= j < |rest| && rest[j] == b;
    l := if j < k then j else j + 1;
  }

  lemma SameMembers<T>(s: seq<T>, t: seq<T>)
    requires multiset(s) == multiset(t)
    ensures forall x :: x in s <==> x in t
  {
    forall x ensures x in s <==> x in t {
      assert x in s <==> x in multiset(s);
      assert x in t <==> x in multiset(t);
    }
  }

  lemma DescribesPermutes(mt: MessageType, acts: seq<Act>, others: seq<Act>, m: Message)
    requires multiset(acts) == multiset(others) && Describes(mt, acts, m)
    ensures Describes(mt, others, m)
  {
    SameMembers(acts, others);
    forall i | 0 <= i < |mt.fields| ensures SlotDescribed(mt, others, i, m.slots[i]) {
      assert SlotDescribed(mt, acts, i, m.slots[i]);
    }
    forall o | o in m.oneofs ensures exists a :: a in others && Populates(mt, a, o) {
      var a :| a in acts && Populates(mt, a, o);
      assert a in others;
    }
  }

  /** Order does not matter: rearranged acts are accepted alike and give the same message. */
  lemma RunPermutes(mt: MessageType, acts: seq<Act>, others: seq<Act>)
    requires multiset(acts) == multiset(others)
    requires forall a :: a in acts ==> Typed(mt, a)
    ensures Run(mt, acts, {}, {}, Fresh(mt)) == Run(mt, others, {}, {}, Fresh(mt))
  {
    SameMembers(acts, others);
    RunExact(mt, acts);
    RunExact(mt, others);
    var r, r' := Run(mt, acts, {}, {}, Fresh(mt)), Run(mt, others, {}, {}, Fresh(mt));
    if r.Some? {
      NoDuplicatesPermutes(mt, acts, others);
      DescribesPermutes(mt, acts, others, r.value);
      DescribesUnique(mt, others, r.value, r'.value);
    } else if r'.Some? {
      NoDuplicatesPermutes(mt, others, acts);
      assert false;
    }
  }
}
