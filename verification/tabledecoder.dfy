/**
 The table decoder as it runs: a message table that decodes into a target object, with the seen
 fields in a 64-bit mask and the next field predicted, or with a set when there are more fields.
 */
module TableDecoder {
  import opened Bytes
  import opened Schema
  import opened Decoders
  import opened Masks
  import opened Messages
  import opened Table
  import C = Cursor
  import G = Generated
  import T = Text

  // ---------------------------------------------------------------- skipping

  /** decBuffer.skipValue. */
  method SkipPlain(d: Decoder) returns (err: bool)
    requires d.Valid() && d.depth >= 0
    modifies d
    ensures var r := PlainSkip(old(d.Rest()), old(d.depth));
            err == r.None? && d.Valid() && (!err ==> d.Stands(r.value, old(d.depth)) && d.off > old(d.off))
    decreases |d.data| - d.off, 1
  {
    hide T.ReadString, PlainSkipMembers, PlainSkipElems, C.SkipScalar;
    ghost var s := d.Rest();
    d.SkipWhitespace();
    d.Head();
    SkippedReads(s);
    if d.off >= |d.data| {
      return true;
    }
    if d.data[d.off] == LBRACE {
      d.depth := d.depth + 1;
      if d.depth > 100 {
        return true;
      }
      d.off := d.off + 1;
      err := SkipPlainMembers(d);
    } else if d.data[d.off] == LBRACKET {
      d.depth := d.depth + 1;
      if d.depth > 100 {
        return true;
      }
      d.off := d.off + 1;
      err := SkipPlainElems(d);
    } else if d.data[d.off] == QUOTE {
      var _, bad := d.ReadStringBytes();
      err := bad;
    } else {
      err := d.SkipToken();
    }
  }

  method SkipPlainMembers(d: Decoder) returns (err: bool)
    requires d.Valid() && d.depth >= 1
    modifies d
    ensures var r := PlainSkipMembers(old(d.Rest()), true, old(d.depth));
            err == r.None? && d.Valid() && (!err ==> d.Stands(r.value, old(d.depth) - 1) && d.off >= old(d.off))
    decreases |d.data| - d.off, 2
  {
    hide T.ReadString, PlainSkip, C.Separator;
    var first := true;
    while true
      invariant d.Valid() && d.depth == old(d.depth) && d.off >= old(d.off)
      invariant PlainSkipMembers(d.Rest(), first, d.depth) == PlainSkipMembers(old(d.Rest()), true, old(d.depth))
      decreases |d.data| - d.off
    {
      ghost var s, f := d.Rest(), first;
      d.SkipWhitespace();
      d.Head();
      if d.off >= |d.data| {
        d.depth := d.depth - 1;
        return true;
      }
      if d.data[d.off] == RBRACE {
        d.off := d.off + 1;
        d.depth := d.depth - 1;
        return false;
      }
      err := d.PassSeparator(first);
      if err {
        return;
      }
      first := false;
      var key;
      key, err := d.ReadStringBytes();
      if err {
        return;
      }
      err := d.PassColon();
      if err {
        return;
      }
      assert C.NextKeyPlain(s, f) == C.Key(key, d.Rest());
      err := SkipPlain(d);
      if err {
        return;
      }
    }
  }

  method SkipPlainElems(d: Decoder) returns (err: bool)
    requires d.Valid() && d.depth >= 1
    modifies d
    ensures var r := PlainSkipElems(old(d.Rest()), true, old(d.depth));
            err == r.None? && d.Valid() && (!err ==> d.Stands(r.value, old(d.depth) - 1) && d.off >= old(d.off))
    decreases |d.data| - d.off, 2
  {
    hide PlainSkip, C.NextElem;
    var first := true;
    while true
      invariant d.Valid() && d.depth == old(d.depth) && d.off >= old(d.off)
      invariant PlainSkipElems(d.Rest(), first, d.depth) == PlainSkipElems(old(d.Rest()), true, old(d.depth))
      decreases |d.data| - d.off, if first then 1 else 0
    {
      var ok;
      first, ok, err := d.NextArrayElement(first);
      if err || !ok {
        return;
      }
      err := SkipPlain(d);
      if err {
        return;
      }
    }
  }

  // ---------------------------------------------------------------- facts about targets

  lemma StoreIntoTarget(mt: MessageType, i: nat, p: G.Payload, m: Message, seenOneofs: set<nat>)
    requires TargetOk(mt, m) && i < |mt.fields|
    ensures var r := StoreInto(mt, i, p, m, seenOneofs); r.Some? ==> TargetOk(mt, r.value.0)
  {
  }

  /** When every field has been seen there is nothing to clear. */
  lemma ClearNothing(mt: MessageType, m: Message, seen: set<nat>, seenOneofs: set<nat>)
    requires TargetOk(mt, m) && forall i :: 0 <= i < |mt.fields| ==> i in seen
    ensures ClearMissing(mt, m, seen, seenOneofs) == m
  {
    var c := ClearMissing(mt, m, seen, seenOneofs);
    assert c.slots == m.slots;
    assert c.oneofs == m.oneofs;
  }

  /** `m` with the fields before `n` cleared. */
  ghost predicate ClearedUpto(mt: MessageType, m: Message, c: Message, n: nat, seen: set<nat>, seenOneofs: set<nat>) {
    && Shaped(mt, m) && Shaped(mt, c) && n <= |mt.fields|
    && (forall i :: 0 <= i < |mt.fields| ==> c.slots[i] == if i < n && i !in seen then ZeroSlot(mt.fields[i]) else m.slots[i])
    && (forall o :: o in c.oneofs <==> o in m.oneofs && (m.oneofs[o].field >= n || m.oneofs[o].field in seen || o in seenOneofs))
    && (forall o :: o in c.oneofs ==> c.oneofs[o] == m.oneofs[o])
  }

  lemma ClearedNone(mt: MessageType, m: Message, seen: set<nat>, seenOneofs: set<nat>)
    requires Shaped(mt, m)
    ensures ClearedUpto(mt, m, m, 0, seen, seenOneofs)
  {
  }

  function ClearOne(mt: MessageType, m: Message, i: nat): (r: Message)
    requires Shaped(mt, m) && i < |mt.fields|
    ensures Shaped(mt, r)
  {
    match mt.fields[i].card
    case Member(o) => if o in m.oneofs && m.oneofs[o].field == i then m.(oneofs := m.oneofs - {o}) else m
    case _ => m.(slots := m.slots[i := ZeroSlot(mt.fields[i])])
  }

  /** Field `i` is to be cleared. */
  predicate ToClear(mt: MessageType, i: nat, seen: set<nat>, seenOneofs: set<nat>)
    requires i < |mt.fields|
  {
    i !in seen && !(mt.fields[i].card.Member? && mt.fields[i].card.oneof in seenOneofs)
  }

  lemma ClearedStep(mt: MessageType, m: Message, c: Message, i: nat, seen: set<nat>, seenOneofs: set<nat>)
    requires TargetOk(mt, m) && i < |mt.fields| && ClearedUpto(mt, m, c, i, seen, seenOneofs)
    ensures ToClear(mt, i, seen, seenOneofs) ==> ClearedUpto(mt, m, ClearOne(mt, c, i), i + 1, seen, seenOneofs)
    ensures !ToClear(mt, i, seen, seenOneofs) ==> ClearedUpto(mt, m, c, i + 1, seen, seenOneofs)
  {
  }

  lemma ClearedAll(mt: MessageType, m: Message, c: Message, seen: set<nat>, seenOneofs: set<nat>)
    requires TargetOk(mt, m) && ClearedUpto(mt, m, c, |mt.fields|, seen, seenOneofs)
    ensures c == ClearMissing(mt, m, seen, seenOneofs)
  {
    var r := ClearMissing(mt, m, seen, seenOneofs);
    assert c.slots == r.slots;
    assert c.oneofs == r.oneofs;
  }

  // ---------------------------------------------------------------- tables

  class MessageTable {
    const env: G.Env
    const t: nat
    const fieldMap: map<bytes, nat>

    ghost predicate Valid() {
      fieldMap == FieldMap(env.schema(t), |env.schema(t).fields|)
    }

    /** The end of compileTable: both names of every field go into the key map. */
    constructor (env: G.Env, t: nat)
      ensures Valid() && this.env == env && this.t == t
    {
      this.env := env;
      this.t := t;
      var m := map[];
      var fields := env.schema(t).fields;
      for i := 0 to |fields|
        invariant m == FieldMap(env.schema(t), i)
      {
        m := m[fields[i].json := i];
        m := m[fields[i].proto := i];
      }
      fieldMap := m;
    }

    /** clearField. */
    method ClearField(x: MessageObject, i: nat)
      requires x.env == env && x.t == t && x.Valid() && i < |x.slots|
      modifies x
      ensures x.Valid() && x.Value() == ClearOne(env.schema(t), old(x.Value()), i)
    {
      var f := env.schema(t).fields[i];
      if f.card.Member? {
        var o := f.card.oneof;
        if o in x.oneofs && x.oneofs[o].field == i {
          x.oneofs := x.oneofs - {o};
        }
      } else {
        x.slots := x.slots[i := ZeroSlot(f)];
      }
    }

    method ClearMissing(x: MessageObject, seen: bv64, tracker: OneofTracker)
      requires x.env == env && x.t == t && x.Valid() && TargetOk(env.schema(t), x.Value()) && |x.slots| <= 64
      requires tracker.Valid() && tracker.count == OneofCount(env.schema(t).fields)
      modifies x
      ensures x.Valid() && x.Value() == Table.ClearMissing(env.schema(t), old(x.Value()), Bits(seen), tracker.Seen())
    {
      hide HasBit, Bits, ClearedUpto, ClearOne, TargetOk;
      var fields := env.schema(t).fields;
      ClearedNone(env.schema(t), x.Value(), Bits(seen), tracker.Seen());
      for i := 0 to |fields|
        invariant x.Valid() && ClearedUpto(env.schema(t), old(x.Value()), x.Value(), i, Bits(seen), tracker.Seen())
      {
        BitIn(seen, i);
        ClearedStep(env.schema(t), old(x.Value()), x.Value(), i, Bits(seen), tracker.Seen());
        if !HasBit(seen, i) {
          var populated := false;
          if fields[i].card.Member? {
            populated := tracker.Has(fields[i].card.oneof);
          }
          if !populated {
            ClearField(x, i);
          }
        }
      }
      ClearedAll(env.schema(t), old(x.Value()), x.Value(), Bits(seen), tracker.Seen());
    }

    /** resetIfNeeded. */
    method Reset(x: MessageObject)
      requires x.env == env && x.t == t && x.Valid() && TargetOk(env.schema(t), x.Value())
      modifies x
      ensures x.Valid() && x.Value() == Table.ClearMissing(env.schema(t), old(x.Value()), {}, {})
    {
      hide ClearedUpto, ClearOne, TargetOk;
      ClearedNone(env.schema(t), x.Value(), {}, {});
      for i := 0 to |env.schema(t).fields|
        invariant x.Valid() && ClearedUpto(env.schema(t), old(x.Value()), x.Value(), i, {}, {})
      {
        ClearedStep(env.schema(t), old(x.Value()), x.Value(), i, {}, {});
        ClearField(x, i);
      }
      ClearedAll(env.schema(t), old(x.Value()), x.Value(), {}, {});
    }

    /** The field for a key: the predicted one, or the one the key map has. */
    method FieldInstruction(key: bytes, nextIdx: nat, wide: bool) returns (found: Option<nat>, next: nat)
      requires Valid()
      ensures (found, next) == Found(env.schema(t), wide, key, nextIdx)
    {
      var fields := env.schema(t).fields;
      next := nextIdx;
      if !wide && nextIdx < |fields| {
        if key == fields[nextIdx].json || key == fields[nextIdx].proto {
          return Some(nextIdx), nextIdx + 1;
        }
      }
      if key in fieldMap {
        found, next := Some(fieldMap[key]), if wide then 0 else fieldMap[key] + 1;
      } else {
        found, next := None, if wide then 0 else nextIdx;
      }
    }
  }

  // ---------------------------------------------------------------- decoding

  /** A single value; a nested message is decoded into the one that is there already. */
  method ItemInto(env: G.Env, k: Kind, prior: Option<Message>, d: Decoder) returns (item: G.Item, err: bool)
    requires d.Valid() && d.depth >= 0
    modifies d
    ensures var r := IntoItem(env, k, prior, old(d.Rest()), old(d.depth));
            err == r.Err? && d.Valid() && (!err ==> item == r.value && d.Stands(r.rest, old(d.depth)) && d.off > old(d.off))
    decreases |d.data| - d.off, 3
  {
    hide G.ReadScalar, IntoMessage;
    if k.MessageKind? {
      var table := new MessageTable(env, k.message);
      var x := new MessageObject(env, k.message);
      var target := TargetFor(env.schema(k.message), prior);
      x.slots, x.oneofs := target.slots, target.oneofs;
      err := UnmarshalInto(table, x, d);
      item := G.Known(Sub(Message(x.slots, x.oneofs)));
    } else {
      item, err := ReadScalar(env, k, d);
    }
  }

  lemma ListIntoStep(env: G.Env, k: Kind, s: bytes, first: bool, depth: nat, u: bytes)
    requires C.NextElem(s, first) == C.Element(u)
    ensures var l := IntoList(env, k, s, first, depth);
            var r := IntoItem(env, k, None, u, depth);
            if k.MessageKind? && C.ReadNull(u).Some? then l.Err?
            else if r.Err? then l.Err?
            else l == Preceding(if r.value.Known? then [r.value.v] else [], IntoList(env, k, r.rest, false, depth))
  {
    hide C.NextElem, C.ReadNull, IntoItem;
    var r := IntoItem(env, k, None, u, depth);
    if r.Ok? && r.value.Unknown? {
      PrecedingStep([], Num(0), IntoList(env, k, r.rest, false, depth));
    }
  }

  lemma ListIntoEnds(env: G.Env, k: Kind, s: bytes, first: bool, depth: nat, vs: seq<Value>)
    ensures var r := Preceding(vs, IntoList(env, k, s, first, depth));
            && (C.NextElem(s, first).EndArray? ==> r == Ok(vs, C.NextElem(s, first).rest))
            && (C.NextElem(s, first).NoElem? ==> r.Err?)
  {
    assert vs + [] == vs;
  }

  method ListInto(env: G.Env, k: Kind, d: Decoder) returns (vs: seq<Value>, err: bool)
    requires d.Valid() && d.depth >= 0
    modifies d
    ensures var r := IntoList(env, k, old(d.Rest()), true, old(d.depth));
            err == r.Err? && d.Valid() && (!err ==> vs == r.value && d.Stands(r.rest, old(d.depth) - 1) && d.off >= old(d.off))
    decreases |d.data| - d.off, 4
  {
    hide C.NextElem, C.ReadNull, IntoItem, IntoList, Preceding;
    vs := [];
    var first := true;
    ghost var depth: nat := d.depth;
    ghost var all := IntoList(env, k, d.Rest(), true, depth);
    PrecedingStep([], Num(0), all);
    while true
      invariant d.Valid() && d.depth == depth && d.off >= old(d.off)
      invariant all == Preceding(vs, IntoList(env, k, d.Rest(), first, depth))
      decreases |d.data| - d.off, if first then 1 else 0
    {
      ListIntoEnds(env, k, d.Rest(), first, depth, vs);
      ghost var s, f := d.Rest(), first;
      var ok, item;
      first, ok, err := d.NextArrayElement(first);
      if err || !ok {
        return;
      }
      ghost var u := d.Rest();
      ListIntoStep(env, k, s, f, depth, u);
      if k.MessageKind? {
        var isNull := d.ReadNull();
        if isNull {
          PrecedingFails(vs);
          return vs, true;
        }
        SkippedInto(env, k, None, u, depth);
      }
      item, err := ItemInto(env, k, None, d);
      if err {
        PrecedingFails(vs);
        return;
      }
      ghost var more := IntoList(env, k, d.Rest(), false, depth);
      if item.Known? {
        PrecedingStep(vs, item.v, more);
        vs := vs + [item.v];
      } else {
        PrecedingStep([], Num(0), more);
      }
    }
  }

  lemma SkippedMessage(env: G.Env, t: nat, target: Message, s: bytes, depth: nat)
    requires Shaped(env.schema(t), target)
    ensures IntoMessage(env, t, target, SkipWs(s), depth) == IntoMessage(env, t, target, s, depth)
  {
    SkippedReads(s);
    assert C.Begin(SkipWs(s), LBRACE, depth) == C.Begin(s, LBRACE, depth);
    hide C.Begin, IntoLoop, Table.ClearMissing;
  }

  lemma SkippedInto(env: G.Env, k: Kind, prior: Option<Message>, s: bytes, depth: nat)
    ensures IntoItem(env, k, prior, SkipWs(s), depth) == IntoItem(env, k, prior, s, depth)
  {
    if k.MessageKind? {
      SkippedMessage(env, k.message, TargetFor(env.schema(k.message), prior), s, depth);
      hide IntoMessage, TargetFor;
    } else {
      SkippedScalar(env, k, s);
    }
  }

  /** unmarshalKnownField up to the assignment. */
  method PayloadInto(env: G.Env, f: Field, prior: Option<Message>, d: Decoder) returns (p: G.Payload, err: bool)
    requires d.Valid() && d.depth >= 0
    modifies d
    ensures var r := IntoPayload(env, f, prior, old(d.Rest()), old(d.depth));
            err == r.Err? && d.Valid() && (!err ==> p == r.value && d.Stands(r.rest, old(d.depth)) && d.off > old(d.off))
    decreases |d.data| - d.off, 5
  {
    hide C.ReadNull, C.Begin, IntoItem, IntoList, G.ReadPairs;
    p, err := G.Null, true;
    ghost var s, depth: nat := d.Rest(), d.depth;
    SkippedInto(env, f.kind, prior, s, depth);
    SkippedReads(s);
    var isNull := d.ReadNull();
    if isNull {
      NullMoves(s);
      return G.Null, false;
    }
    match f.card
    case StringMap =>
      var bad := d.Begin(LBRACE);
      if bad {
        return;
      }
      var m;
      m, err := ReadPairs(d);
      p := G.Map(m);
    case Repeated =>
      var bad := d.Begin(LBRACKET);
      if bad {
        return;
      }
      var vs;
      vs, err := ListInto(env, f.kind, d);
      p := G.List(vs);
    case _ =>
      var item;
      item, err := ItemInto(env, f.kind, prior, d);
      p := G.Single(item);
  }

  /** unmarshalKnownField: decode field `i` of the target and assign it; `tracker` already holds its oneof. */
  method KnownFieldInto(x: MessageObject, i: nat, d: Decoder, tracker: OneofTracker) returns (err: bool)
    requires x.Valid() && i < |x.slots| && d.Valid() && d.depth >= 0
    requires tracker.Valid() && tracker.count == OneofCount(x.env.schema(x.t).fields)
    modifies x, d, tracker, tracker.slice
    ensures x.Valid() && d.Valid()
    ensures var f := x.env.schema(x.t).fields[i];
            var p := IntoPayload(x.env, f, Existing(f, old(x.slots[i])), old(d.Rest()), old(d.depth));
            var r := if p.Ok? then StoreInto(x.env.schema(x.t), i, p.value, old(x.Value()), old(tracker.Seen())) else None;
            && err == r.None?
            && (!err ==> x.Value() == r.value.0 && tracker.Seen() == r.value.1 && d.Stands(p.rest, old(d.depth)) && d.off > old(d.off))
    decreases |d.data| - d.off, 6
  {
    hide IntoPayload, G.Store;
    var f := x.env.schema(x.t).fields[i];
    var p;
    p, err := PayloadInto(x.env, f, Existing(f, x.slots[i]), d);
    if err {
      return;
    }
    if p.Single? && p.item.Unknown? {
      match f.card
      case Member(o) =>
        var populated := tracker.Has(o);
        if populated {
          return true;
        }
        tracker.Set(o);
      case Optional => x.slots := x.slots[i := Pointer(None)];
      case _ =>
    } else {
      err := x.StoreField(i, p, tracker);
    }
  }

  /** The part of the loop for a field that was found: it is refused if its bit is set, and else decoded and marked. */
  method FieldOnce(x: MessageObject, i: nat, d: Decoder, tracker: OneofTracker, seen: bv64) returns (seen': bv64, err: bool)
    requires x.Valid() && i < |x.slots| <= 64 && d.Valid() && d.depth >= 0
    requires tracker.Valid() && tracker.count == OneofCount(x.env.schema(x.t).fields)
    requires TargetOk(x.env.schema(x.t), x.Value()) && forall j :: j in Bits(seen) ==> j < |x.slots|
    modifies x, d, tracker, tracker.slice
    ensures x.Valid() && d.Valid()
    ensures var f := x.env.schema(x.t).fields[i];
            var p := IntoPayload(x.env, f, Existing(f, old(x.slots[i])), old(d.Rest()), old(d.depth));
            var r := if p.Ok? then StoreInto(x.env.schema(x.t), i, p.value, old(x.Value()), old(tracker.Seen())) else None;
            && err == (i in Bits(seen) || r.None?)
            && (!err ==> x.Value() == r.value.0 && tracker.Seen() == r.value.1 && Bits(seen') == Bits(seen) + {i}
                         && d.Stands(p.rest, old(d.depth)) && d.off > old(d.off))
    ensures !err ==> TargetOk(x.env.schema(x.t), x.Value()) && forall j :: j in Bits(seen') ==> j < |x.slots|
    decreases |d.data| - d.off, 7
  {
    hide IntoPayload, StoreInto, HasBit, With, TargetOk, Bits;
    seen' := seen;
    BitIn(seen, i);
    if HasBit(seen, i) {
      return seen, true;
    }
    BitsSet(seen, i);
    seen' := With(seen, i);
    StoresTarget(x.env.schema(x.t), i, x.Value(), tracker.Seen());
    err := KnownFieldInto(x, i, d, tracker);
  }

  /** The loop of unmarshalFrom for at most 64 fields, with the seen fields in a mask. */
  method NarrowLoop(table: MessageTable, x: MessageObject, d: Decoder, tracker: OneofTracker) returns (seen: bv64, err: bool)
    requires table.Valid() && x.env == table.env && x.t == table.t && x.Valid() && |x.slots| <= 64 && d.Valid() && d.depth >= 1
    requires tracker.Valid() && tracker.count == OneofCount(x.env.schema(x.t).fields) && tracker.Seen() == {}
    requires TargetOk(x.env.schema(x.t), x.Value())
    modifies x, d, tracker, tracker.slice
    ensures x.Valid() && d.Valid()
    ensures var r := IntoLoop(x.env, x.t, false, old(d.Rest()), true, 0, Decoded(old(x.Value()), {}, {}), old(d.depth));
            && err == r.Err?
            && (!err ==> Decoded(x.Value(), Bits(seen), tracker.Seen()) == r.value && d.Stands(r.rest, old(d.depth) - 1) && d.off > old(d.off))
    ensures !err ==> TargetOk(x.env.schema(x.t), x.Value()) && forall i :: i in Bits(seen) ==> i < |x.slots|
    decreases |d.data| - d.off, 8
  {
    hide C.NextKey, IntoPayload, StoreInto, PlainSkip, Found, HasBit, With, TargetOk, Bits;
    BitsEmpty();
    seen := 0;
    var first := true;
    var nextIdx := 0;
    ghost var depth: nat := d.depth;
    ghost var all := IntoLoop(x.env, x.t, false, d.Rest(), true, 0, Decoded(x.Value(), {}, {}), depth);
    while true
      invariant x.Valid() && d.Valid() && d.depth == depth && d.off >= old(d.off) && TargetOk(x.env.schema(x.t), x.Value())
      invariant forall i :: i in Bits(seen) ==> i < |x.slots|
      invariant all == IntoLoop(x.env, x.t, false, d.Rest(), first, nextIdx, Decoded(x.Value(), Bits(seen), tracker.Seen()), depth)
      decreases |d.data| - d.off
    {
      var key, ok, found;
      key, first, ok, err := d.NextObjectKey(first);
      if err || !ok {
        return;
      }
      found, nextIdx := table.FieldInstruction(key, nextIdx, false);
      match found
      case None =>
        if !x.env.discard {
          return seen, true;
        }
        err := SkipPlain(d);
        if err {
          return;
        }
      case Some(i) =>
        seen, err := FieldOnce(x, i, d, tracker, seen);
        if err {
          return;
        }
    }
  }

  lemma BitIn(mask: bv64, i: nat)
    requires i < 64
    ensures HasBit(mask, i) <==> i in Bits(mask)
  {
  }

  lemma StoresTarget(mt: MessageType, i: nat, m: Message, seenOneofs: set<nat>)
    requires TargetOk(mt, m) && i < |mt.fields|
    ensures forall p :: StoreInto(mt, i, p, m, seenOneofs).Some? ==> TargetOk(mt, StoreInto(mt, i, p, m, seenOneofs).value.0)
  {
    forall p | StoreInto(mt, i, p, m, seenOneofs).Some? ensures TargetOk(mt, StoreInto(mt, i, p, m, seenOneofs).value.0) {
      StoreIntoTarget(mt, i, p, m, seenOneofs);
    }
  }

  /** The loop of unmarshalFrom for more than 64 fields, with the seen fields in a set. */
  method WideLoop(table: MessageTable, x: MessageObject, d: Decoder, tracker: OneofTracker) returns (err: bool)
    requires table.Valid() && x.env == table.env && x.t == table.t && x.Valid() && d.Valid() && d.depth >= 1
    requires tracker.Valid() && tracker.count == OneofCount(x.env.schema(x.t).fields) && tracker.Seen() == {}
    modifies x, d, tracker, tracker.slice
    ensures x.Valid() && d.Valid()
    ensures var r := IntoLoop(x.env, x.t, true, old(d.Rest()), true, 0, Decoded(old(x.Value()), {}, {}), old(d.depth));
            err == r.Err? && (!err ==> x.Value() == r.value.m && d.Stands(r.rest, old(d.depth) - 1) && d.off > old(d.off))
    decreases |d.data| - d.off, 7
  {
    hide C.NextKey, IntoPayload, StoreInto, PlainSkip, Found;
    var seen: set<nat> := {};
    var first := true;
    var nextIdx := 0;
    ghost var depth: nat := d.depth;
    ghost var all := IntoLoop(x.env, x.t, true, d.Rest(), true, 0, Decoded(x.Value(), {}, {}), depth);
    while true
      invariant x.Valid() && d.Valid() && d.depth == depth && d.off >= old(d.off)
      invariant all == IntoLoop(x.env, x.t, true, d.Rest(), first, nextIdx, Decoded(x.Value(), seen, tracker.Seen()), depth)
      decreases |d.data| - d.off
    {
      var key, ok, found;
      key, first, ok, err := d.NextObjectKey(first);
      if err || !ok {
        return;
      }
      found, nextIdx := table.FieldInstruction(key, nextIdx, true);
      match found
      case None =>
        if !x.env.discard {
          return true;
        }
        err := SkipPlain(d);
        if err {
          return;
        }
      case Some(i) =>
        if i in seen {
          return true;
        }
        seen := seen + {i};
        err := KnownFieldInto(x, i, d, tracker);
        if err {
          return;
        }
    }
  }

  /** unmarshalFrom. */
  method UnmarshalInto(table: MessageTable, x: MessageObject, d: Decoder) returns (err: bool)
    requires table.Valid() && x.env == table.env && x.t == table.t && x.Valid() && TargetOk(x.env.schema(x.t), x.Value())
    requires d.Valid() && d.depth >= 0
    modifies x, d
    ensures x.Valid() && d.Valid()
    ensures var r := IntoMessage(x.env, x.t, old(x.Value()), old(d.Rest()), old(d.depth));
            err == r.Err? && (!err ==> x.Value() == r.value && d.Stands(r.rest, old(d.depth)) && d.off > old(d.off))
    decreases |d.data| - d.off, 2
  {
    hide C.Begin, IntoLoop, Table.ClearMissing, TargetOk, Bits, AllSeen, OneofCount;
    var tracker := new OneofTracker(OneofCount(x.env.schema(x.t).fields));
    if |x.env.schema(x.t).fields| > 64 {
      table.Reset(x);
      err := d.Begin(LBRACE);
      if err {
        return;
      }
      err := WideLoop(table, x, d, tracker);
      return;
    }
    err := d.Begin(LBRACE);
    if err {
      return;
    }
    var seen;
    seen, err := NarrowLoop(table, x, d, tracker);
    if err {
      return;
    }
    AllSeenExact(seen, |x.slots|);
    if seen != AllSeen(|x.slots|) {
      table.ClearMissing(x, seen, tracker);
    } else {
      ClearNothing(x.env.schema(x.t), x.Value(), Bits(seen), tracker.Seen());
    }
  }

  /** UnmarshalOptions.Unmarshal with a table. */
  method UnmarshalWithTable(table: MessageTable, x: MessageObject, data: bytes) returns (err: bool)
    requires table.Valid() && x.env == table.env && x.t == table.t && x.Valid() && TargetOk(x.env.schema(x.t), x.Value())
    modifies x
    ensures x.Valid()
    ensures var r := UnmarshalTable(x.env, x.t, old(x.Value()), data); err == r.None? && (!err ==> x.Value() == r.value)
  {
    hide IntoMessage, TargetOk;
    var d := new Decoder(data);
    assert data[0..] == data;
    err := UnmarshalInto(table, x, d);
    if !err {
      err := d.Finish();
    }
  }
}
