/**
 The table decoder (MessageTable.unmarshalFrom). Up to 64 fields it predicts the next field, decodes
 into whatever the target holds and clears the fields that did not occur; beyond that it clears
 first and looks every key up. Both accept what the generated decoder accepts.
 */
module Table {
  import opened Bytes
  import opened Text
  import opened Cursor
  import opened Schema
  import opened Generated
  import M = Meanings

  // ---------------------------------------------------------------- skipping, the second version

  /** decBuffer.skipValue, with its own loops and with readStringBytes for the keys. */
  function PlainSkip(s: bytes, depth: nat): (r: Option<bytes>)
    ensures r.Some? ==> |r.value| < |s|
    decreases |s|, 0
  {
    var t := SkipWs(s);
    if t == [] then None
    else if t[0] == LBRACE then
      if depth + 1 > MAX_DEPTH then None else PlainSkipMembers(t[1..], true, depth + 1)
    else if t[0] == LBRACKET then
      if depth + 1 > MAX_DEPTH then None else PlainSkipElems(t[1..], true, depth + 1)
    else if t[0] == QUOTE then
      match ReadString(s)
      case Err => None
      case Ok(_, rest) => Some(rest)
    else SkipScalar(t)
  }

  function PlainSkipMembers(s: bytes, first: bool, depth: nat): (r: Option<bytes>)
    ensures r.Some? ==> |r.value| < |s|
    decreases |s|, 1
  {
    NextKeyAgree(s, first);
    match NextKeyPlain(s, first)
    case NoKey => None
    case EndObject(rest) => Some(rest)
    case Key(_, u) =>
      match PlainSkip(u, depth)
      case None => None
      case Some(v) => PlainSkipMembers(v, false, depth)
  }

  function PlainSkipElems(s: bytes, first: bool, depth: nat): (r: Option<bytes>)
    ensures r.Some? ==> |r.value| < |s|
    decreases |s|, 1
  {
    match NextElem(s, first)
    case NoElem => None
    case EndArray(rest) => Some(rest)
    case Element(u) =>
      match PlainSkip(u, depth)
      case None => None
      case Some(v) => PlainSkipElems(v, false, depth)
  }

  /** The two versions of skipping a value agree on every input. */
  lemma {:induction false} SkipsAgree(s: bytes, depth: nat)
    ensures PlainSkip(s, depth) == SkipValue(s, depth)
    decreases |s|, 0
  {
    hide *;
    var t := SkipWs(s);
    if At(t, LBRACE) || At(t, LBRACKET) {
      Bracket(t);
      if depth + 1 <= MAX_DEPTH {
        MembersSkipsAgree(t[1..], true, depth + 1);
        ElemsSkipsAgree(t[1..], true, depth + 1);
      }
    }
    SkipsUnfold(s, depth);
  }

  lemma Bracket(t: bytes)
    requires At(t, LBRACE) || At(t, LBRACKET)
    ensures t != []
  {
  }

  /** The two versions agree if their loops do. */
  lemma SkipsUnfold(s: bytes, depth: nat)
    requires var t := SkipWs(s);
             At(t, LBRACE) && depth + 1 <= MAX_DEPTH ==>
               PlainSkipMembers(t[1..], true, depth + 1) == SkipMembers(t[1..], true, depth + 1)
    requires var t := SkipWs(s);
             At(t, LBRACKET) && depth + 1 <= MAX_DEPTH ==>
               PlainSkipElems(t[1..], true, depth + 1) == SkipElems(t[1..], true, depth + 1)
    ensures PlainSkip(s, depth) == SkipValue(s, depth)
  {
    hide SkipScalar, ReadString, PlainSkipMembers, PlainSkipElems, SkipMembers, SkipElems;
  }

  lemma {:induction false} MembersSkipsAgree(s: bytes, first: bool, depth: nat)
    ensures PlainSkipMembers(s, first, depth) == SkipMembers(s, first, depth)
    decreases |s|, 1
  {
    hide PlainSkip, SkipValue;
    NextKeyAgree(s, first);
    match NextKey(s, first)
    case NoKey =>
    case EndObject(_) =>
    case Key(_, u) =>
      SkipsAgree(u, depth);
      match SkipValue(u, depth)
      case None =>
      case Some(v) => MembersSkipsAgree(v, false, depth);
  }

  lemma {:induction false} ElemsSkipsAgree(s: bytes, first: bool, depth: nat)
    ensures PlainSkipElems(s, first, depth) == SkipElems(s, first, depth)
    decreases |s|, 1
  {
    hide PlainSkip, SkipValue;
    match NextElem(s, first)
    case NoElem =>
    case EndArray(_) =>
    case Element(u) =>
      SkipsAgree(u, depth);
      match SkipValue(u, depth)
      case None =>
      case Some(v) => ElemsSkipsAgree(v, false, depth);
  }

  // ---------------------------------------------------------------- looking fields up

  /** The key map of a table, filled field by field with both names. */
  function FieldMap(mt: MessageType, i: nat): (r: map<bytes, nat>)
    requires i <= |mt.fields|
    ensures forall k :: k in r ==> r[k] < i
  {
    if i == 0 then map[]
    else
      var m := FieldMap(mt, i - 1);
      m[mt.fields[i - 1].json := i - 1][mt.fields[i - 1].proto := i - 1]
  }

  function Lookup(mt: MessageType, key: bytes): (r: Option<nat>)
    ensures r.Some? ==> r.value < |mt.fields|
  {
    var m := FieldMap(mt, |mt.fields|);
    if key in m then Some(m[key]) else None
  }

  lemma {:induction false} FieldMapNames(mt: MessageType, i: nat, key: bytes)
    requires i <= |mt.fields|
    ensures var m := FieldMap(mt, i);
            if key in m then Names(mt.fields[m[key]], key)
            else forall j :: 0 <= j < i ==> !Names(mt.fields[j], key)
  {
    if i > 0 {
      FieldMapNames(mt, i - 1, key);
    }
  }

  /** The key map finds what the switch of the generated decoder finds. */
  lemma LookupIsFind(mt: MessageType, key: bytes)
    requires NamesDistinct(mt)
    ensures Lookup(mt, key) == Find(mt, key)
  {
    FieldMapNames(mt, |mt.fields|, key);
    hide FieldMap;
    if Lookup(mt, key).Some? {
      FindUnique(mt, key, Lookup(mt, key).value);
    }
  }

  /** The field for a key: the predicted one when it goes by that key, the looked up one otherwise. */
  function Predict(mt: MessageType, key: bytes, nextIdx: nat): (r: (Option<nat>, nat))
    ensures r.0.Some? ==> r.0.value < |mt.fields|
  {
    if nextIdx < |mt.fields| && Names(mt.fields[nextIdx], key) then (Some(nextIdx), nextIdx + 1)
    else
      match Lookup(mt, key)
      case None => (None, nextIdx)
      case Some(i) => (Some(i), i + 1)
  }

  /** Prediction never changes which field is found. */
  lemma PredictIsFind(mt: MessageType, key: bytes, nextIdx: nat)
    requires NamesDistinct(mt)
    ensures Predict(mt, key, nextIdx).0 == Find(mt, key)
  {
    LookupIsFind(mt, key);
    if nextIdx < |mt.fields| && Names(mt.fields[nextIdx], key) {
      FindUnique(mt, key, nextIdx);
    }
  }

  /** The field the table decoder takes for a key, and its next prediction. */
  function Found(mt: MessageType, wide: bool, key: bytes, nextIdx: nat): (r: (Option<nat>, nat))
    ensures r.0.Some? ==> r.0.value < |mt.fields|
  {
    if wide then (Lookup(mt, key), 0) else Predict(mt, key, nextIdx)
  }

  // ---------------------------------------------------------------- decoding into a target

  /** Whether a target can be a struct of this type. */
  predicate TargetOk(mt: MessageType, m: Message) {
    && Shaped(mt, m)
    && (forall i :: 0 <= i < |mt.fields| && mt.fields[i].card.Member? ==> m.slots[i] == InOneof)
    && (forall o :: o in m.oneofs ==> m.oneofs[o].field < |mt.fields| && mt.fields[m.oneofs[o].field].card == Member(o))
  }

  /** Store in a target: an unknown enum name leaves a plain field alone, unsets an optional one and leaves a oneof alone. */
  function StoreInto(mt: MessageType, i: nat, p: Payload, m: Message, seenOneofs: set<nat>): (r: Option<(Message, set<nat>)>)
    requires Shaped(mt, m) && i < |mt.fields|
    ensures r.Some? ==> Shaped(mt, r.value.0)
  {
    if p.Single? && p.item.Unknown? then
      match mt.fields[i].card
      case Member(o) => if o in seenOneofs then None else Some((m, seenOneofs + {o}))
      case Optional => Some((m.(slots := m.slots[i := Pointer(None)]), seenOneofs))
      case _ => Some((m, seenOneofs))
    else Store(mt, i, p, m, seenOneofs)
  }

  /** The message a field already points to, into which a nested message is decoded. */
  function Existing(f: Field, slot: Slot): Option<Message> {
    if !f.card.Member? && slot.Pointer? && slot.p.Some? && slot.p.value.Sub? then Some(slot.p.value.m) else None
  }

  function TargetFor(mt: MessageType, prior: Option<Message>): (m: Message)
    ensures Shaped(mt, m) && TargetOk(mt, m)
  {
    if prior.Some? && TargetOk(mt, prior.value) then prior.value else Fresh(mt)
  }

  /** clearMissing: fields that did not occur are cleared, except the populated member of a seen oneof. */
  function ClearMissing(mt: MessageType, m: Message, seen: set<nat>, seenOneofs: set<nat>): (r: Message)
    requires Shaped(mt, m)
    ensures Shaped(mt, r)
  {
    Message(seq(|mt.fields|, i requires 0 <= i < |mt.fields| => if i in seen then m.slots[i] else ZeroSlot(mt.fields[i])),
            map o | o in m.oneofs && (m.oneofs[o].field in seen || o in seenOneofs) :: m.oneofs[o])
  }

  function IntoItem(env: Env, k: Kind, prior: Option<Message>, s: bytes, depth: nat): (r: Read<Item>)
    ensures r.Ok? ==> |r.rest| < |s|
    decreases |s|, 3
  {
    match k
    case MessageKind(t) =>
      var (m, rest) :- IntoMessage(env, t, TargetFor(env.schema(t), prior), s, depth);
      Ok(Known(Sub(m)), rest)
    case _ => ReadScalar(env, k, s)
  }

  function IntoList(env: Env, k: Kind, s: bytes, first: bool, depth: nat): (r: Read<seq<Value>>)
    ensures r.Ok? ==> |r.rest| < |s|
    decreases |s|, 5
  {
    match NextElem(s, first)
    case NoElem => Err
    case EndArray(rest) => Ok([], rest)
    case Element(u) =>
      if k.MessageKind? && ReadNull(u).Some? then Err
      else
        match IntoItem(env, k, None, u, depth)
        case Err => Err
        case Ok(item, v) =>
          var (vs, rest) :- IntoList(env, k, v, false, depth);
          Ok(if item.Known? then [item.v] + vs else vs, rest)
  }

  /** unmarshalKnownField up to the store. */
  function IntoPayload(env: Env, f: Field, prior: Option<Message>, s: bytes, depth: nat): (r: Read<Payload>)
    ensures r.Ok? ==> |r.rest| < |s|
    decreases |s|, 4
  {
    match ReadNull(s)
    case Some(rest) => Ok(Null, rest)
    case None =>
      match f.card
      case StringMap =>
        (match Begin(s, LBRACE, depth)
         case None => Err
         case Some(u) => var (m, rest) :- ReadPairs(u, true, map[]); Ok(Map(m), rest))
      case Repeated =>
        (match Begin(s, LBRACKET, depth)
         case None => Err
         case Some(u) => var (vs, rest) :- IntoList(env, f.kind, u, true, depth + 1); Ok(List(vs), rest))
      case _ => var (item, rest) :- IntoItem(env, f.kind, prior, s, depth); Ok(Single(item), rest)
  }

  /** The state of a decode behind the last member. */
  datatype Decoded = Decoded(m: Message, seen: set<nat>, seenOneofs: set<nat>)

  /** The loop shared by both paths; `wide` turns prediction off. */
  function IntoLoop(env: Env, t: nat, wide: bool, s: bytes, first: bool, nextIdx: nat, d: Decoded, depth: nat): (r: Read<Decoded>)
    requires Shaped(env.schema(t), d.m)
    ensures r.Ok? ==> |r.rest| < |s| && Shaped(env.schema(t), r.value.m)
    decreases |s|, 0
  {
    var mt := env.schema(t);
    match NextKey(s, first)
    case NoKey => Err
    case EndObject(rest) => Ok(d, rest)
    case Key(key, u) =>
      var (found, next) := Found(mt, wide, key, nextIdx);
      match found
      case None =>
        if !env.discard then Err
        else
          (match PlainSkip(u, depth)
           case None => Err
           case Some(v) => IntoLoop(env, t, wide, v, false, next, d, depth))
      case Some(i) =>
        if i in d.seen then Err
        else
          match IntoPayload(env, mt.fields[i], Existing(mt.fields[i], d.m.slots[i]), u, depth)
          case Err => Err
          case Ok(p, v) =>
            match StoreInto(mt, i, p, d.m, d.seenOneofs)
            case None => Err
            case Some((m', o')) => IntoLoop(env, t, wide, v, false, next, Decoded(m', d.seen + {i}, o'), depth)
  }

  /** The path for at most 64 fields: decode, then clear what is missing. */
  function NarrowMessage(env: Env, t: nat, target: Message, s: bytes, depth: nat): (r: Read<Message>)
    requires Shaped(env.schema(t), target)
    ensures r.Ok? ==> |r.rest| < |s| && Shaped(env.schema(t), r.value)
    decreases |s|, 1
  {
    match Begin(s, LBRACE, depth)
    case None => Err
    case Some(u) =>
      var (d, rest) :- IntoLoop(env, t, false, u, true, 0, Decoded(target, {}, {}), depth + 1);
      Ok(ClearMissing(env.schema(t), d.m, d.seen, d.seenOneofs), rest)
  }

  /** The path for more than 64 fields: clear everything, then decode. */
  function WideMessage(env: Env, t: nat, target: Message, s: bytes, depth: nat): (r: Read<Message>)
    requires Shaped(env.schema(t), target)
    ensures r.Ok? ==> |r.rest| < |s| && Shaped(env.schema(t), r.value)
    decreases |s|, 1
  {
    match Begin(s, LBRACE, depth)
    case None => Err
    case Some(u) =>
      var (d, rest) :- IntoLoop(env, t, true, u, true, 0, Decoded(ClearMissing(env.schema(t), target, {}, {}), {}, {}), depth + 1);
      Ok(d.m, rest)
  }

  /** unmarshalFrom. */
  function IntoMessage(env: Env, t: nat, target: Message, s: bytes, depth: nat): (r: Read<Message>)
    requires Shaped(env.schema(t), target)
    ensures r.Ok? ==> |r.rest| < |s| && Shaped(env.schema(t), r.value)
    decreases |s|, 2
  {
    if |env.schema(t).fields| > 64 then WideMessage(env, t, target, s, depth) else NarrowMessage(env, t, target, s, depth)
  }

  /** UnmarshalOptions.Unmarshal with a table: nothing but white space may follow the message. */
  function UnmarshalTable(env: Env, t: nat, target: Message, data: bytes): Option<Message>
    requires Shaped(env.schema(t), target)
  {
    Finish(IntoMessage(env, t, target, data, 0))
  }

  // ---------------------------------------------------------------- one acceptance

  /** The reads accept alike and stop at the same place. */
  predicate SameEnd<T, U>(r: Read<T>, r': Read<U>) {
    r.Ok? == r'.Ok? && (r.Ok? ==> r.rest == r'.rest)
  }

  /** The payloads are of the same form, which is all the duplicate checks look at. */
  predicate SameForm(p: Payload, q: Payload) {
    && p.Null? == q.Null? && p.Single? == q.Single? && p.List? == q.List?
    && (p.Single? ==> p.item.Known? == q.item.Known?)
  }

  /** Whether storing succeeds does not depend on the message stored into. */
  lemma StoresAlike(mt: MessageType, i: nat, p: Payload, q: Payload, m: Message, n: Message, seenOneofs: set<nat>)
    requires Shaped(mt, m) && Shaped(mt, n) && i < |mt.fields| && SameForm(p, q)
    ensures var r, r' := StoreInto(mt, i, p, m, seenOneofs), Store(mt, i, q, n, seenOneofs);
            r.Some? == r'.Some? && (r.Some? ==> r.value.1 == r'.value.1)
  {
  }

  lemma FoundIsFind(schema: Schema, t: nat, wide: bool, key: bytes, nextIdx: nat)
    requires SchemaOk(schema)
    ensures Found(schema(t), wide, key, nextIdx).0 == Find(schema(t), key)
  {
    assert TypeOk(schema(t));
    LookupIsFind(schema(t), key);
    PredictIsFind(schema(t), key, nextIdx);
  }

  lemma {:induction false} ItemEnds(env: Env, k: Kind, prior: Option<Message>, s: bytes, depth: nat)
    requires SchemaOk(env.schema)
    ensures var r, r' := IntoItem(env, k, prior, s, depth), ReadItem(env, false, k, s, depth);
            SameEnd(r, r') && (r.Ok? ==> r.value.Known? == r'.value.Known?)
    decreases |s|, 4
  {
    hide SchemaOk, IntoMessage, SlowMessage, TargetOk, ReadScalar;
    if k.MessageKind? {
      MessageEnds(env, k.message, TargetFor(env.schema(k.message), prior), s, depth);
    }
  }

  /** The list loop behind an element. */
  function AfterElement(env: Env, k: Kind, r: Read<Item>, depth: nat): Read<seq<Value>> {
    match r
    case Err => Err
    case Ok(item, v) =>
      var (vs, rest) :- IntoList(env, k, v, false, depth);
      Ok(if item.Known? then [item.v] + vs else vs, rest)
  }

  /** One turn of the list loop. */
  lemma ElementTurn(env: Env, k: Kind, s: bytes, first: bool, u: bytes, depth: nat)
    requires NextElem(s, first) == Element(u)
    ensures IntoList(env, k, s, first, depth) ==
            if k.MessageKind? && ReadNull(u).Some? then Err else AfterElement(env, k, IntoItem(env, k, None, u, depth), depth)
  {
    hide IntoItem, ReadNull, NextElem;
  }

  lemma NoTurn(env: Env, k: Kind, s: bytes, first: bool, depth: nat)
    requires !NextElem(s, first).Element?
    ensures IntoList(env, k, s, first, depth) == ReadList(env, false, k, s, first, depth)
  {
    hide NextElem;
  }

  lemma {:induction false} ListEnds(env: Env, k: Kind, s: bytes, first: bool, depth: nat)
    requires SchemaOk(env.schema)
    ensures SameEnd(IntoList(env, k, s, first, depth), ReadList(env, false, k, s, first, depth))
    decreases |s|, 6
  {
    hide NextElem, SchemaOk, IntoList, ReadList, IntoItem, ReadItem, ReadNull;
    if NextElem(s, first).Element? {
      var u := NextElem(s, first).rest;
      ElementTurn(env, k, s, first, u, depth);
      M.ListTurn(env, k, s, first, u, depth);
      ItemEnds(env, k, None, u, depth);
      var r := ReadItem(env, false, k, u, depth);
      if r.Ok? {
        ListEnds(env, k, r.rest, false, depth);
      }
    } else {
      NoTurn(env, k, s, first, depth);
    }
  }

  lemma {:induction false} PayloadEnds(env: Env, f: Field, prior: Option<Message>, s: bytes, depth: nat)
    requires SchemaOk(env.schema)
    ensures var r, r' := IntoPayload(env, f, prior, s, depth), ReadPayload(env, false, f, s, depth);
            SameEnd(r, r') && (r.Ok? ==> SameForm(r.value, r'.value))
    decreases |s|, 5
  {
    hide SchemaOk, IntoItem, ReadItem, IntoList, ReadList, ReadPairs, ReadNull, Begin;
    ItemEnds(env, f.kind, prior, s, depth);
    match Begin(s, LBRACKET, depth)
    case None =>
    case Some(u) => ListEnds(env, f.kind, u, true, depth + 1);
  }

  /** One turn of the loop. */
  lemma TableTurn(env: Env, t: nat, wide: bool, s: bytes, first: bool, nextIdx: nat, d: Decoded, depth: nat, key: bytes, u: bytes)
    requires Shaped(env.schema(t), d.m) && NextKey(s, first) == Key(key, u)
    ensures var mt := env.schema(t);
            var found := Found(mt, wide, key, nextIdx);
            IntoLoop(env, t, wide, s, first, nextIdx, d, depth) ==
            if found.0.None? then (if env.discard then TableSkip(env, t, wide, PlainSkip(u, depth), found.1, d, depth) else Err)
            else if found.0.value in d.seen then Err
            else TableStore(env, t, wide, found.0.value, found.1, d, depth,
                            IntoPayload(env, mt.fields[found.0.value], Existing(mt.fields[found.0.value], d.m.slots[found.0.value]), u, depth))
  {
    hide NextKey, Found, PlainSkip, IntoPayload, StoreInto, Existing;
  }

  function TableSkip(env: Env, t: nat, wide: bool, r: Option<bytes>, next: nat, d: Decoded, depth: nat): Read<Decoded>
    requires Shaped(env.schema(t), d.m)
  {
    match r case None => Err case Some(v) => IntoLoop(env, t, wide, v, false, next, d, depth)
  }

  function TableStore(env: Env, t: nat, wide: bool, i: nat, next: nat, d: Decoded, depth: nat, r: Read<Payload>): Read<Decoded>
    requires Shaped(env.schema(t), d.m) && i < |env.schema(t).fields|
  {
    match r
    case Err => Err
    case Ok(p, v) =>
      match StoreInto(env.schema(t), i, p, d.m, d.seenOneofs)
      case None => Err
      case Some((m', o')) => IntoLoop(env, t, wide, v, false, next, Decoded(m', d.seen + {i}, o'), depth)
  }

  lemma {:induction false} LoopEnds(env: Env, t: nat, wide: bool, s: bytes, first: bool, nextIdx: nat, d: Decoded, m: Message, depth: nat)
    requires SchemaOk(env.schema) && Shaped(env.schema(t), d.m) && Shaped(env.schema(t), m)
    ensures SameEnd(IntoLoop(env, t, wide, s, first, nextIdx, d, depth), SlowLoop(env, t, s, first, d.seen, d.seenOneofs, m, depth))
    decreases |s|, 1
  {
    match NextKey(s, first)
    case NoKey =>
    case EndObject(_) =>
    case Key(key, u) =>
      TableTurn(env, t, wide, s, first, nextIdx, d, depth, key, u);
      M.LoopTurn(env, t, s, first, key, u, d.seen, d.seenOneofs, m, depth);
      FoundIsFind(env.schema, t, wide, key, nextIdx);
      hide NextKey, SchemaOk, Found, Find, IntoLoop, SlowLoop, TableStore, M.AfterPayload;
      var (found, next) := Found(env.schema(t), wide, key, nextIdx);
      match found
      case None =>
        SkipsAgree(u, depth);
        if env.discard && SkipValue(u, depth).Some? {
          LoopEnds(env, t, wide, SkipValue(u, depth).value, false, next, d, m, depth);
        }
      case Some(i) =>
        if i !in d.seen {
          FieldEnds(env, t, wide, i, u, next, d, m, depth);
        }
  }

  lemma {:induction false} FieldEnds(env: Env, t: nat, wide: bool, i: nat, u: bytes, next: nat, d: Decoded, m: Message, depth: nat)
    requires SchemaOk(env.schema) && Shaped(env.schema(t), d.m) && Shaped(env.schema(t), m) && i < |env.schema(t).fields|
    ensures var f := env.schema(t).fields[i];
            SameEnd(TableStore(env, t, wide, i, next, d, depth, IntoPayload(env, f, Existing(f, d.m.slots[i]), u, depth)),
                    M.AfterPayload(env, t, i, ReadPayload(env, false, f, u, depth), d.seen, d.seenOneofs, m, depth))
    decreases |u|, 6
  {
    var mt := env.schema(t);
    var f := mt.fields[i];
    var prior := Existing(f, d.m.slots[i]);
    PayloadEnds(env, f, prior, u, depth);
    var p, q := IntoPayload(env, f, prior, u, depth), ReadPayload(env, false, f, u, depth);
    hide IntoPayload, ReadPayload, SchemaOk, StoreInto, Store, IntoLoop, SlowLoop;
    if p.Ok? {
      StoresAlike(mt, i, p.value, q.value, d.m, m, d.seenOneofs);
      var r, r' := StoreInto(mt, i, p.value, d.m, d.seenOneofs), Store(mt, i, q.value, m, d.seenOneofs);
      if r.Some? {
        LoopEnds(env, t, wide, p.rest, false, next, Decoded(r.value.0, d.seen + {i}, r.value.1), r'.value.0, depth);
      }
    }
  }

  /**
   Whatever the target held and whatever is discarded, the table decoder accepts what the generated
   decoder accepts and stops where it stops, on either path.
   */
  lemma {:induction false} MessageEnds(env: Env, t: nat, target: Message, s: bytes, depth: nat)
    requires SchemaOk(env.schema) && Shaped(env.schema(t), target)
    ensures SameEnd(NarrowMessage(env, t, target, s, depth), SlowMessage(env, t, s, depth))
    ensures SameEnd(WideMessage(env, t, target, s, depth), SlowMessage(env, t, s, depth))
    ensures SameEnd(IntoMessage(env, t, target, s, depth), SlowMessage(env, t, s, depth))
    decreases |s|, 3
  {
    hide IntoLoop, SlowLoop, ClearMissing, SchemaOk;
    match Begin(s, LBRACE, depth)
    case None =>
    case Some(u) =>
      var m := Fresh(env.schema(t));
      LoopEnds(env, t, false, u, true, 0, Decoded(target, {}, {}), m, depth + 1);
      LoopEnds(env, t, true, u, true, 0, Decoded(ClearMissing(env.schema(t), target, {}, {}), {}, {}), m, depth + 1);
  }
}
