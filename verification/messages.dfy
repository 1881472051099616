/**
 The generated code as it runs: message objects whose methods decode into their own fields, encode
 themselves, and call each other through nested messages. Every method is proved against the
 decoder or printer function of the same job.
 */
module Messages {
  import opened Bytes
  import opened Schema
  import opened Decoders
  import opened Encoders
  import opened Masks
  import C = Cursor
  import E = Encode
  import G = Generated
  import N = Numbers
  import O = Order
  import T = Text

  /** The number of oneofs, as far as the fields tell. */
  function OneofCount(fields: seq<Field>): (n: nat)
    ensures forall i :: 0 <= i < |fields| && fields[i].card.Member? ==> fields[i].card.oneof < n
  {
    if fields == [] then 0
    else
      var n := OneofCount(fields[1..]);
      assert forall i :: 0 < i < |fields| ==> fields[i] == fields[1..][i - 1];
      if fields[0].card.Member? && fields[0].card.oneof >= n then fields[0].card.oneof + 1 else n
  }

  // ---------------------------------------------------------------- values

  /** The switch over the names of an enum. */
  method ReadEnum(env: G.Env, values: seq<EnumValue>, d: Decoder) returns (item: G.Item, err: bool)
    requires d.Valid()
    modifies d`off
    ensures var r := G.ReadEnum(env, values, old(d.Rest()));
            err == r.Err? && d.Valid() && (!err ==> item == r.value && d.Stands(r.rest, old(d.depth)))
    ensures d.off >= old(d.off)
  {
    hide T.ReadString, N.ReadInt32;
    item, err := G.Unknown, true;
    ghost var s := d.Rest();
    d.SkipWhitespace();
    d.Head();
    SkippedReads(s);
    SkippedInt(env.floats, s);
    if d.off < |d.data| && d.data[d.off] == QUOTE {
      var name, bad := d.ReadStringBytes();
      if bad {
        return;
      }
      match FindName(values, name)
      case Some(n) => item, err := G.Known(Num(n)), false;
      case None => item, err := G.Unknown, !env.discard;
    } else {
      var n, bad := d.ReadInt32(env.floats);
      item, err := G.Known(Num(n)), bad;
    }
  }

  lemma SkippedInt(fl: N.Floats, s: bytes)
    ensures N.ReadInt32(fl, SkipWs(s)) == N.ReadInt32(fl, s)
  {
    SkippedReads(s);
    SkipWsStop(SkipWs(s));
    hide N.ReadNumberLike, N.SimpleInt64, N.ParseInt64;
  }

  method ReadScalar(env: G.Env, k: Kind, d: Decoder) returns (item: G.Item, err: bool)
    requires d.Valid() && !k.MessageKind?
    modifies d`off
    ensures var r := G.ReadScalar(env, k, old(d.Rest()));
            err == r.Err? && d.Valid() && (!err ==> item == r.value && d.Stands(r.rest, old(d.depth)))
    ensures d.off >= old(d.off)
  {
    hide T.ReadString, N.ReadInt32, N.ReadInt64, N.ReadUint32, N.ReadUint64, C.ReadBool, G.ReadEnum;
    item := G.Unknown;
    match k
    case StringKind =>
      var v, bad := d.ReadStringBytes();
      item, err := G.Known(Str(v)), bad;
    case BoolKind =>
      var v, bad := d.ReadBool();
      item, err := G.Known(Bool(v)), bad;
    case Int32Kind =>
      var v, bad := d.ReadInt32(env.floats);
      item, err := G.Known(Num(v)), bad;
    case Int64Kind =>
      var v, bad := d.ReadInt64(env.floats);
      item, err := G.Known(Num(v)), bad;
    case Uint32Kind =>
      var v, bad := d.ReadUint32(env.floats);
      item, err := G.Known(Num(v)), bad;
    case Uint64Kind =>
      var v, bad := d.ReadUint64(env.floats);
      item, err := G.Known(Num(v)), bad;
    case EnumKind(values) => item, err := ReadEnum(env, values, d);
  }

  /** The loop over a map of strings. */
  method ReadPairs(d: Decoder) returns (m: map<bytes, bytes>, err: bool)
    requires d.Valid()
    modifies d
    ensures var r := G.ReadPairs(old(d.Rest()), true, map[]);
            err == r.Err? && d.Valid() && (!err ==> m == r.value && d.Stands(r.rest, old(d.depth) - 1))
    ensures d.off >= old(d.off)
  {
    hide C.NextKey, T.ReadString;
    m := map[];
    var first := true;
    while true
      invariant d.Valid() && d.depth == old(d.depth) && d.off >= old(d.off)
      invariant G.ReadPairs(d.Rest(), first, m) == G.ReadPairs(old(d.Rest()), true, map[])
      decreases |d.data| - d.off
    {
      var k, ok, v;
      k, first, ok, err := d.NextObjectKey(first);
      if err || !ok {
        return;
      }
      v, err := d.ReadStringBytes();
      if err {
        return;
      }
      if k in m {
        return m, true;
      }
      m := m[k := v];
    }
  }

  /** A single value; nested messages are decoded into a new object. */
  method ReadItem(env: G.Env, fast: bool, k: Kind, d: Decoder) returns (item: G.Item, err: bool)
    requires d.Valid() && d.depth >= 0
    modifies d
    ensures var r := G.ReadItem(env, fast, k, old(d.Rest()), old(d.depth));
            err == r.Err? && d.Valid() && (!err ==> item == r.value && d.Stands(r.rest, old(d.depth)) && d.off > old(d.off))
    decreases |d.data| - d.off, 3
  {
    hide G.ReadScalar, G.ReadMessage;
    if k.MessageKind? {
      var x := new MessageObject(env, k.message);
      err := x.DecodeNested(d, fast);
      item := G.Known(Sub(Message(x.slots, x.oneofs)));
    } else {
      item, err := ReadScalar(env, k, d);
    }
  }

  /** The rest of a list whose first elements have been read. */
  ghost function Preceding(vs: seq<Value>, r: Read<seq<Value>>): Read<seq<Value>> {
    match r case Err => Err case Ok(more, rest) => Ok(vs + more, rest)
  }

  lemma PrecedingStep(vs: seq<Value>, v: Value, r: Read<seq<Value>>)
    ensures Preceding(vs, Preceding([v], r)) == Preceding(vs + [v], r)
    ensures Preceding([], r) == r
  {
    if r.Ok? {
      assert vs + ([v] + r.value) == vs + [v] + r.value;
      assert [] + r.value == r.value;
    }
  }

  lemma ListStep(env: G.Env, fast: bool, k: Kind, s: bytes, first: bool, depth: nat, u: bytes)
    requires C.NextElem(s, first) == C.Element(u)
    ensures var l := G.ReadList(env, fast, k, s, first, depth);
            var r := G.ReadItem(env, fast, k, u, depth);
            if k.MessageKind? && C.ReadNull(u).Some? then l.Err?
            else if r.Err? then l.Err?
            else l == Preceding(if r.value.Known? then [r.value.v] else [], G.ReadList(env, fast, k, r.rest, false, depth))
  {
    hide C.NextElem, C.ReadNull, G.ReadItem;
    var r := G.ReadItem(env, fast, k, u, depth);
    if r.Ok? && r.value.Unknown? {
      PrecedingStep([], Num(0), G.ReadList(env, fast, k, r.rest, false, depth));
    }
  }

  /** The loop over the elements of a repeated field. */
  method ReadList(env: G.Env, fast: bool, k: Kind, d: Decoder) returns (vs: seq<Value>, err: bool)
    requires d.Valid() && d.depth >= 0
    modifies d
    ensures var r := G.ReadList(env, fast, k, old(d.Rest()), true, old(d.depth));
            err == r.Err? && d.Valid() && (!err ==> vs == r.value && d.Stands(r.rest, old(d.depth) - 1) && d.off >= old(d.off))
    decreases |d.data| - d.off, 4
  {
    hide C.NextElem, C.ReadNull, G.ReadItem, G.ReadList, Preceding;
    vs := [];
    var first := true;
    ghost var depth: nat := d.depth;
    ghost var all := G.ReadList(env, fast, k, d.Rest(), true, depth);
    PrecedingStep([], Num(0), all);
    while true
      invariant d.Valid() && d.depth == depth && d.off >= old(d.off)
      invariant all == Preceding(vs, G.ReadList(env, fast, k, d.Rest(), first, depth))
      decreases |d.data| - d.off, if first then 1 else 0
    {
      ListEnds(env, fast, k, d.Rest(), first, depth, vs);
      ghost var s, f := d.Rest(), first;
      var ok, item;
      first, ok, err := d.NextArrayElement(first);
      if err || !ok {
        return;
      }
      ghost var u := d.Rest();
      ListStep(env, fast, k, s, f, depth, u);
      if k.MessageKind? {
        var isNull := d.ReadNull();
        if isNull {
          PrecedingFails(vs);
          return vs, true;
        }
        SkippedItem(env, fast, k, u, depth);
      }
      item, err := ReadItem(env, fast, k, d);
      if err {
        PrecedingFails(vs);
        return;
      }
      ghost var more := G.ReadList(env, fast, k, d.Rest(), false, depth);
      if item.Known? {
        PrecedingStep(vs, item.v, more);
        vs := vs + [item.v];
      } else {
        PrecedingStep([], Num(0), more);
      }
    }
  }

  lemma PrecedingFails(vs: seq<Value>)
    ensures Preceding(vs, Err).Err?
  {
  }

  lemma ListEnds(env: G.Env, fast: bool, k: Kind, s: bytes, first: bool, depth: nat, vs: seq<Value>)
    ensures var r := Preceding(vs, G.ReadList(env, fast, k, s, first, depth));
            && (C.NextElem(s, first).EndArray? ==> r == Ok(vs, C.NextElem(s, first).rest))
            && (C.NextElem(s, first).NoElem? ==> r.Err?)
  {
    assert vs + [] == vs;
  }

  lemma SkippedFast(env: G.Env, t: nat, s: bytes, depth: nat)
    ensures G.FastMessage(env, t, SkipWs(s), depth) == G.FastMessage(env, t, s, depth)
  {
    SkippedReads(s);
    assert C.Begin(SkipWs(s), LBRACE, depth) == C.Begin(s, LBRACE, depth);
    hide C.Begin, G.FastFields;
  }

  lemma SkippedSlow(env: G.Env, t: nat, s: bytes, depth: nat)
    ensures G.SlowMessage(env, t, SkipWs(s), depth) == G.SlowMessage(env, t, s, depth)
  {
    SkippedReads(s);
    assert C.Begin(SkipWs(s), LBRACE, depth) == C.Begin(s, LBRACE, depth);
    hide C.Begin, G.SlowLoop;
  }

  /** White space in front of a nested message is skipped anyway. */
  lemma SkippedItem(env: G.Env, fast: bool, k: Kind, s: bytes, depth: nat)
    requires k.MessageKind?
    ensures G.ReadItem(env, fast, k, SkipWs(s), depth) == G.ReadItem(env, fast, k, s, depth)
  {
    hide G.FastMessage, G.SlowMessage;
    SkippedFast(env, k.message, s, depth);
    SkippedSlow(env, k.message, s, depth);
  }

  lemma SkippedPayload(env: G.Env, fast: bool, k: Kind, s: bytes, depth: nat)
    ensures G.ReadItem(env, fast, k, SkipWs(s), depth) == G.ReadItem(env, fast, k, s, depth)
    ensures forall open :: C.Begin(SkipWs(s), open, depth) == C.Begin(s, open, depth)
  {
    SkippedReads(s);
    if k.MessageKind? {
      SkippedItem(env, fast, k, s, depth);
    } else {
      SkippedScalar(env, k, s);
    }
    hide G.ReadMessage, G.ReadScalar, C.Begin;
  }

  lemma SkippedScalar(env: G.Env, k: Kind, s: bytes)
    requires !k.MessageKind?
    ensures G.ReadScalar(env, k, SkipWs(s)) == G.ReadScalar(env, k, s)
  {
    SkippedReads(s);
    SkipWsStop(SkipWs(s));
    SkippedInt(env.floats, s);
    SkippedUint(env.floats, s);
    hide SkipWs, FindName, T.ReadString, N.ReadInt32, N.ReadUint32, N.ReadNumberLike, N.SimpleInt64, N.SimpleUint64, N.ParseInt64, N.ParseUint64;
  }

  lemma SkippedUint(fl: N.Floats, s: bytes)
    ensures N.ReadUint32(fl, SkipWs(s)) == N.ReadUint32(fl, s)
  {
    SkippedReads(s);
    SkipWsStop(SkipWs(s));
    hide N.ReadNumberLike, N.SimpleUint64, N.ParseUint64;
  }

  /** What stands behind the key of a field. */
  method ReadPayload(env: G.Env, fast: bool, f: Field, d: Decoder) returns (p: G.Payload, err: bool)
    requires d.Valid() && d.depth >= 0
    modifies d
    ensures var r := G.ReadPayload(env, fast, f, old(d.Rest()), old(d.depth));
            err == r.Err? && d.Valid() && (!err ==> p == r.value && d.Stands(r.rest, old(d.depth)) && d.off > old(d.off))
    decreases |d.data| - d.off, 4
  {
    hide C.ReadNull, C.Begin, G.ReadItem, G.ReadList, G.ReadPairs;
    p, err := G.Null, true;
    ghost var s, depth: nat := d.Rest(), d.depth;
    SkippedPayload(env, fast, f.kind, s, depth);
    var isNull := d.ReadNull();
    if isNull {
      NullMoves(s);
      return G.Null, false;
    }
    match f.card
    case StringMap =>
      var bad := d.Begin(LBRACE);
      if bad {
        return;
      }
      var m;
      m, err := ReadPairs(d);
      p := G.Map(m);
    case Repeated =>
      var bad := d.Begin(LBRACKET);
      if bad {
        return;
      }
      var vs;
      vs, err := ReadList(env, fast, f.kind, d);
      p := G.List(vs);
    case _ =>
      var item;
      item, err := ReadItem(env, fast, f.kind, d);
      p := G.Single(item);
  }

  lemma NullMoves(s: bytes)
    ensures C.ReadNull(s).Some? ==> |C.ReadNull(s).value| < |s|
  {
  }

  // ---------------------------------------------------------------- message objects

  /** The set an array of flags stands for. */
  ghost function Flags(a: array<bool>): set<nat>
    reads a
  {
    set i: nat | i < a.Length && a[i]
  }

  /** A generated message struct: a slot per field and the populated oneofs. */
  class MessageObject {
    const env: G.Env
    const t: nat
    var slots: seq<Slot>
    var oneofs: map<nat, Choice>

    ghost predicate Valid()
      reads this
    {
      |slots| == |env.schema(t).fields|
    }

    ghost function Value(): Message
      reads this
    {
      Message(slots, oneofs)
    }

    constructor (env: G.Env, t: nat)
      ensures this.env == env && this.t == t && Valid() && Value() == Fresh(env.schema(t))
    {
      this.env := env;
      this.t := t;
      slots := Fresh(env.schema(t)).slots;
      oneofs := map[];
    }

    /** Assigning the zero struct. */
    method Clear()
      modifies this
      ensures Valid() && Value() == Fresh(env.schema(t))
    {
      slots := Fresh(env.schema(t)).slots;
      oneofs := map[];
    }

    /** Assign what was decoded for field `i`; `err` when its oneof has been populated already. */
    method StoreField(i: nat, p: G.Payload, tracker: OneofTracker) returns (err: bool)
      requires Valid() && i < |slots| && tracker.Valid() && tracker.count == OneofCount(env.schema(t).fields)
      modifies this, tracker, tracker.slice
      ensures Valid()
      ensures var r := G.Store(env.schema(t), i, p, old(Value()), old(tracker.Seen()));
              err == r.None? && (!err ==> Value() == r.value.0 && tracker.Seen() == r.value.1)
    {
      var f := env.schema(t).fields[i];
      if f.card.Member? {
        var o := f.card.oneof;
        if p.Null? {
          if o in oneofs && oneofs[o].field == i {
            oneofs := oneofs - {o};
          }
          return false;
        }
        var populated := tracker.Has(o);
        if populated || !p.Single? {
          return true;
        }
        tracker.Set(o);
        oneofs := oneofs[o := Choice(i, G.Stored(p.item))];
      } else {
        slots := slots[i := G.SlotOf(f, p)];
      }
      return false;
    }

    /** unmarshalProtoJSONXFast: the fields in declared order, or giving up. */
    method UnmarshalFast(d: Decoder) returns (done: bool, err: bool)
      requires Valid() && Value() == Fresh(env.schema(t)) && d.Valid() && d.depth >= 0
      modifies this, d
      ensures Valid() && d.Valid()
      ensures match G.FastMessage(env, t, old(d.Rest()), old(d.depth))
              case FastErr => err
              case GiveUp => !err && !done
              case FastDone(m, rest) => !err && done && Value() == m && d.Stands(rest, old(d.depth)) && d.off > old(d.off)
      decreases |d.data| - d.off, 1
    {
      hide C.Begin, G.MatchFast, G.ReadPayload, G.Store, Fresh, OneofCount;
      done := false;
      err := d.Begin(LBRACE);
      if err {
        return;
      }
      ghost var depth: nat := d.depth;
      var fields := env.schema(t).fields;
      var tracker := new OneofTracker(OneofCount(fields));
      var first := true;
      ghost var all := G.FastFields(env, t, 0, d.Rest(), true, {}, Value(), depth);
      for i := 0 to |fields|
        invariant Valid() && d.Valid() && d.depth == depth && d.off > old(d.off)
        invariant tracker.Valid() && tracker.count == OneofCount(fields) && fresh(tracker) && (tracker.slice != null ==> fresh(tracker.slice))
        invariant all == G.FastFields(env, t, i, d.Rest(), first, tracker.Seen(), Value(), depth)
      {
        var matched, p;
        first, matched, done, err := d.TryObjectFieldFast(first, fields[i].json);
        if err || done {
          return;
        }
        if matched {
          p, err := ReadPayload(env, true, fields[i], d);
          if err {
            return;
          }
          err := StoreField(i, p, tracker);
          if err {
            return;
          }
        }
      }
      done, err := d.TryEndObject();
    }

    /** unmarshalProtoJSONXFrom: the members in any order. */
    method UnmarshalFrom(d: Decoder) returns (err: bool)
      requires Valid() && Value() == Fresh(env.schema(t)) && d.Valid() && d.depth >= 0
      modifies this, d
      ensures Valid() && d.Valid()
      ensures var r := G.SlowMessage(env, t, old(d.Rest()), old(d.depth));
              err == r.Err? && (!err ==> Value() == r.value && d.Stands(r.rest, old(d.depth)) && d.off > old(d.off))
      decreases |d.data| - d.off, 1
    {
      hide C.Begin, C.NextKey, G.ReadPayload, G.Store, C.SkipValue, Find, Fresh, OneofCount;
      err := d.Begin(LBRACE);
      if err {
        return;
      }
      ghost var depth: nat := d.depth;
      var mt := env.schema(t);
      var tracker := new OneofTracker(OneofCount(mt.fields));
      var seen := new bool[|mt.fields|](_ => false);
      assert Flags(seen) == {};
      var first := true;
      ghost var all := G.SlowLoop(env, t, d.Rest(), true, {}, {}, Value(), depth);
      while true
        invariant Valid() && d.Valid() && d.depth == depth && d.off > old(d.off)
        invariant tracker.Valid() && tracker.count == OneofCount(mt.fields) && fresh(tracker) && (tracker.slice != null ==> fresh(tracker.slice))
        invariant fresh(seen) && seen != tracker.slice && seen.Length == |mt.fields|
        invariant all == G.SlowLoop(env, t, d.Rest(), first, Flags(seen), tracker.Seen(), Value(), depth)
        decreases |d.data| - d.off
      {
        var key, ok;
        key, first, ok, err := d.NextObjectKey(first);
        if err || !ok {
          return;
        }
        match Find(mt, key)
        case None =>
          if !env.discard {
            return true;
          }
          err := d.SkipValue();
          if err {
            return;
          }
        case Some(i) =>
          err := UnmarshalField(i, d, seen, tracker);
          if err {
            return;
          }
      }
    }

    /** The case of one field: the check for duplicates, the value, and the assignment. */
    method UnmarshalField(i: nat, d: Decoder, seen: array<bool>, tracker: OneofTracker) returns (err: bool)
      requires Valid() && i < |slots| && d.Valid() && d.depth >= 0 && seen.Length == |slots| && seen != tracker.slice
      requires tracker.Valid() && tracker.count == OneofCount(env.schema(t).fields)
      modifies this, d, seen, tracker, tracker.slice
      ensures Valid() && d.Valid()
      ensures var p := G.ReadPayload(env, false, env.schema(t).fields[i], old(d.Rest()), old(d.depth));
              var r := if p.Ok? then G.Store(env.schema(t), i, p.value, old(Value()), old(tracker.Seen())) else None;
              && err == (i in old(Flags(seen)) || r.None?)
              && (!err ==> Value() == r.value.0 && tracker.Seen() == r.value.1 && Flags(seen) == old(Flags(seen)) + {i} &&
                           d.Stands(p.rest, old(d.depth)) && d.off > old(d.off))
      decreases |d.data| - d.off, 5
    {
      hide G.ReadPayload, G.Store;
      if seen[i] {
        return true;
      }
      seen[i] := true;
      assert Flags(seen) == old(Flags(seen)) + {i};
      var p;
      p, err := ReadPayload(env, false, env.schema(t).fields[i], d);
      if err {
        return;
      }
      err := StoreField(i, p, tracker);
    }

    /** A nested message: in order first when asked to, and from its start again when that gives up. */
    method DecodeNested(d: Decoder, fast: bool) returns (err: bool)
      requires Valid() && Value() == Fresh(env.schema(t)) && d.Valid() && d.depth >= 0
      modifies this, d
      ensures Valid() && d.Valid()
      ensures var r := G.ReadMessage(env, fast, t, old(d.Rest()), old(d.depth));
              err == r.Err? && (!err ==> Value() == r.value && d.Stands(r.rest, old(d.depth)) && d.off > old(d.off))
      decreases |d.data| - d.off, 2
    {
      hide G.FastMessage, G.SlowMessage;
      if fast {
        var off, depth := d.Mark();
        var done;
        done, err := UnmarshalFast(d);
        if err || done {
          return;
        }
        d.Reset(off, depth);
        Clear();
      }
      err := UnmarshalFrom(d);
    }

    /** The attempts of the entry point, from the start of the input. */
    method Attempt(d: Decoder, tryFast: bool) returns (err: bool)
      requires Valid() && Value() == Fresh(env.schema(t)) && d.Stands(d.data, 0)
      modifies this, d
      ensures Valid()
      ensures var r := G.Attempts(env, t, d.data, tryFast); err == r.None? && (!err ==> Value() == r.value)
    {
      hide G.FastMessage, G.SlowMessage;
      if tryFast {
        var off, depth := d.Mark();
        assert d.data[off..] == d.data;
        var done;
        done, err := UnmarshalFast(d);
        if err {
          return;
        }
        if done {
          err := d.Finish();
          return;
        }
        Clear();
        d.Reset(off, depth);
      }
      err := UnmarshalFrom(d);
      if !err {
        err := d.Finish();
      }
    }

    /** UnmarshalProtoJSONXWithOptions. */
    method Unmarshal(data: bytes) returns (err: bool)
      requires Valid()
      modifies this
      ensures Valid()
      ensures var r := G.Unmarshal(env, t, data); err == r.None? && (!err ==> Value() == r.value)
    {
      hide G.Attempts, G.Peek;
      var d := new Decoder(data);
      assert data[0..] == data;
      Clear();
      var fields := env.schema(t).fields;
      if |fields| > 0 {
        var firstKey, off, depth, bad := d.PeekObjectFieldName();
        if bad {
          return true;
        }
        d.Reset(off, depth);
        err := Attempt(d, firstKey == fields[0].json || firstKey == []);
      } else {
        err := Attempt(d, true);
      }
    }
  }

  // ---------------------------------------------------------------- encoding

  lemma PrefixAppend(wrote: bool, name: bytes, k: bytes)
    ensures E.PrefixTo(wrote, name, k) == E.PrefixTo(wrote, name, []) + k
  {
  }

  /** A value is printed in front of whatever follows. */
  lemma {:induction false} ValueAppend(schema: Schema, kind: Kind, v: Value, k: bytes)
    ensures E.ValueTo(schema, kind, v, k) == E.ValueTo(schema, kind, v, []) + k
    decreases v, 3
  {
    hide T.Quote, N.Decimal, N.QuotedDecimal, FindNumber;
    if kind.MessageKind? && v.Sub? {
      MessageAppend(schema, kind.message, v.m, k);
    }
  }

  lemma {:induction false} MessageAppend(schema: Schema, t: nat, m: Message, k: bytes)
    ensures E.MessageTo(schema, t, m, k) == E.MessageTo(schema, t, m, []) + k
    decreases m, 3
  {
    FieldsAppend(schema, schema(t), m, 0, false, [RBRACE], k);
    assert [RBRACE] + [] == [RBRACE];
  }

  lemma {:induction false} FieldsAppend(schema: Schema, mt: MessageType, m: Message, i: nat, wrote: bool, h: bytes, k: bytes)
    ensures E.FieldsTo(schema, mt, m, i, wrote, h + k) == E.FieldsTo(schema, mt, m, i, wrote, h) + k
    decreases m, 2, |mt.fields| - i
  {
    hide E.FieldTo, E.PrefixTo, E.Emitted;
    if i < |mt.fields| && |m.slots| == |mt.fields| {
      FieldsAppend(schema, mt, m, i + 1, true, h, k);
      FieldsAppend(schema, mt, m, i + 1, wrote, h, k);
      if E.Emitted(mt.fields[i], i, m) {
        var f, more := mt.fields[i], E.FieldsTo(schema, mt, m, i + 1, true, h);
        FieldAppend(schema, f, i, m, more + k);
        FieldAppend(schema, f, i, m, more);
        var text := E.FieldTo(schema, f, i, m, []);
        assert text + (more + k) == text + more + k;
        PrefixAppend(wrote, f.json, text + more + k);
        PrefixAppend(wrote, f.json, text + more);
        var prefix := E.PrefixTo(wrote, f.json, []);
        assert prefix + (text + more + k) == prefix + (text + more) + k;
      }
    }
  }

  lemma {:induction false} FieldAppend(schema: Schema, f: Field, i: nat, m: Message, k: bytes)
    requires i < |m.slots| && E.Emitted(f, i, m)
    ensures E.FieldTo(schema, f, i, m, k) == E.FieldTo(schema, f, i, m, []) + k
    decreases m, 1
  {
    hide E.ValueTo, E.SlotTo;
    match f.card
    case Member(o) => ValueAppend(schema, f.kind, m.oneofs[o].v, k);
    case _ => SlotAppend(schema, f.kind, m.slots[i], k);
  }

  lemma {:induction false} SlotAppend(schema: Schema, kind: Kind, slot: Slot, k: bytes)
    ensures E.SlotTo(schema, kind, slot, k) == E.SlotTo(schema, kind, slot, []) + k
    decreases slot, 0
  {
    hide E.ValueTo, E.ListTo, E.MapTo;
    match slot
    case One(v) => ValueAppend(schema, kind, v, k);
    case Pointer(p) =>
      if p.Some? {
        ValueAppend(schema, kind, p.value, k);
      }
    case Many(vs) =>
      ListAppend(schema, kind, vs, 0, k);
      assert [LBRACKET] + (E.ListTo(schema, kind, vs, 0, []) + k) == [LBRACKET] + E.ListTo(schema, kind, vs, 0, []) + k;
    case Pairs(m) => MapAppend(m, k);
    case InOneof =>
  }

  lemma {:induction false} ListAppend(schema: Schema, kind: Kind, vs: seq<Value>, i: nat, k: bytes)
    requires i <= |vs|
    ensures E.ListTo(schema, kind, vs, i, k) == E.ListTo(schema, kind, vs, i, []) + k
    decreases vs, 0, |vs| - i
  {
    hide E.ValueTo;
    if i < |vs| {
      ListAppend(schema, kind, vs, i + 1, k);
      var more := E.ListTo(schema, kind, vs, i + 1, []);
      ValueAppend(schema, kind, vs[i], more + k);
      ValueAppend(schema, kind, vs[i], more);
      var text := E.ValueTo(schema, kind, vs[i], []);
      var comma := if i > 0 then [COMMA] else [];
      assert comma + (text + (more + k)) == comma + (text + more) + k;
    }
  }

  lemma MapAppend(m: map<bytes, bytes>, k: bytes)
    ensures E.MapTo(m, k) == E.MapTo(m, []) + k
  {
    var keys := O.StringKeys(m.Keys);
    forall key | key in keys ensures key in m {
      assert key in O.Elements(keys);
    }
    hide E.PairsTo;
    PairsAppend(keys, 0, m, k);
    assert [LBRACE] + (E.PairsTo(keys, 0, m, []) + k) == [LBRACE] + E.PairsTo(keys, 0, m, []) + k;
  }

  lemma {:induction false} PairsAppend(keys: seq<bytes>, i: nat, m: map<bytes, bytes>, k: bytes)
    requires i <= |keys| && forall x :: x in keys ==> x in m
    ensures E.PairsTo(keys, i, m, k) == E.PairsTo(keys, i, m, []) + k
    decreases |keys| - i
  {
    hide T.Quote;
    if i < |keys| {
      PairsAppend(keys, i + 1, m, k);
      var more := E.PairsTo(keys, i + 1, m, []);
      var comma, key, value := if i > 0 then [COMMA] else [], T.Quote(keys[i]), T.Quote(m[keys[i]]);
      assert comma + (key + ([COLON] + (value + (more + k)))) == comma + (key + ([COLON] + (value + more))) + k;
    }
  }

  /** A printed value; enum numbers without a name are printed as numbers. */
  method MarshalValue(schema: Schema, kind: Kind, v: Value, e: Encoder)
    requires E.ValueOk(schema, kind, v)
    modifies e
    ensures e.buf == old(e.buf) + E.ValueTo(schema, kind, v, [])
    decreases v, 3
  {
    hide T.Quote, N.Decimal, N.QuotedDecimal, E.MessageTo;
    match kind
    case StringKind =>
      e.String(v.s);
      NothingMore(T.Quote(v.s));
    case BoolKind =>
      e.Bool(v.b);
      NothingMore(E.BoolText(v.b));
    case Int32Kind =>
      e.Int(v.n);
      NothingMore(N.Decimal(v.n));
    case Int64Kind =>
      e.IntString(v.n);
      NothingMore(N.QuotedDecimal(v.n));
    case Uint32Kind =>
      e.Int(v.n);
      NothingMore(N.Decimal(v.n));
    case Uint64Kind =>
      e.IntString(v.n);
      NothingMore(N.QuotedDecimal(v.n));
    case EnumKind(values) =>
      match FindNumber(values, v.n) {
        case Some(name) =>
          e.String(name);
          NothingMore(T.Quote(name));
        case None =>
          e.Int(v.n);
          NothingMore(N.Decimal(v.n));
      }
    case MessageKind(t) => MarshalMessage(schema, t, v.m, e);
  }

  lemma NothingMore(s: bytes)
    ensures s + [] == s
  {
  }

  /** The loop over a repeated field. */
  method MarshalList(schema: Schema, kind: Kind, vs: seq<Value>, e: Encoder)
    requires forall i :: 0 <= i < |vs| ==> E.ValueOk(schema, kind, vs[i])
    modifies e
    ensures e.buf == old(e.buf) + ([LBRACKET] + E.ListTo(schema, kind, vs, 0, []))
    decreases vs, 0
  {
    hide E.ValueTo, E.ValueOk;
    e.Byte(LBRACKET);
    ghost var head := e.buf;
    for i := 0 to |vs|
      invariant head + E.ListTo(schema, kind, vs, 0, []) == e.buf + E.ListTo(schema, kind, vs, i, [])
    {
      ghost var before, more := e.buf, E.ListTo(schema, kind, vs, i + 1, []);
      if i > 0 {
        e.Byte(COMMA);
      }
      MarshalValue(schema, kind, vs[i], e);
      ValueAppend(schema, kind, vs[i], more);
      Regroup(before, if i > 0 then [COMMA] else [], E.ValueTo(schema, kind, vs[i], []), more);
    }
    e.Byte(RBRACKET);
    NothingMore([RBRACKET]);
    Regroup(old(e.buf), [LBRACKET], E.ListTo(schema, kind, vs, 0, []), []);
  }

  lemma Regroup(a: bytes, b: bytes, c: bytes, d: bytes)
    ensures a + (b + (c + d)) == a + b + c + d && a + b + c + d == (a + b + c) + d
    ensures c + [] == c
  {
  }

  /** What a slot holds has this kind. */
  ghost predicate SlotTyped(schema: Schema, kind: Kind, slot: Slot) {
    match slot
    case One(v) => E.ValueOk(schema, kind, v)
    case Pointer(p) => p.Some? ==> E.ValueOk(schema, kind, p.value)
    case Many(vs) => forall i :: 0 <= i < |vs| ==> E.ValueOk(schema, kind, vs[i])
    case Pairs(_) => true
    case InOneof => true
  }

  method MarshalSlot(schema: Schema, kind: Kind, slot: Slot, e: Encoder)
    requires SlotTyped(schema, kind, slot)
    modifies e
    ensures e.buf == old(e.buf) + E.SlotTo(schema, kind, slot, [])
    decreases slot, 0
  {
    hide E.ValueTo, E.ListTo, E.MapTo, E.ValueOk;
    match slot
    case One(v) => MarshalValue(schema, kind, v, e);
    case Pointer(p) =>
      if p.Some? {
        MarshalValue(schema, kind, p.value, e);
      }
    case Many(vs) => MarshalList(schema, kind, vs, e);
    case Pairs(mm) => e.StringMap(mm);
    case InOneof =>
  }

  method MarshalField(schema: Schema, f: Field, i: nat, m: Message, e: Encoder)
    requires i < |m.slots| && E.Emitted(f, i, m)
    requires if f.card.Member? then E.ValueOk(schema, f.kind, m.oneofs[f.card.oneof].v) else SlotTyped(schema, f.kind, m.slots[i])
    modifies e
    ensures e.buf == old(e.buf) + E.FieldTo(schema, f, i, m, [])
    decreases m, 1
  {
    hide E.ValueTo, E.SlotTo, E.ValueOk, SlotTyped;
    if f.card.Member? {
      MarshalValue(schema, f.kind, m.oneofs[f.card.oneof].v, e);
    } else {
      MarshalSlot(schema, f.kind, m.slots[i], e);
    }
  }

  lemma FieldTyped(schema: Schema, t: nat, m: Message, i: nat)
    requires E.MessageOk(schema, t, m) && i < |schema(t).fields| && E.Emitted(schema(t).fields[i], i, m)
    ensures var f := schema(t).fields[i];
            if f.card.Member? then E.ValueOk(schema, f.kind, m.oneofs[f.card.oneof].v) else SlotTyped(schema, f.kind, m.slots[i])
  {
    var f := schema(t).fields[i];
    assert E.SlotOk(schema, f, m.slots[i]);
    if f.card.Member? {
      assert E.ChoiceOk(schema, schema(t), f.card.oneof, m.oneofs[f.card.oneof]);
    }
  }

  /** marshalProtoJSONXTo: the fields that are set, in declared order. */
  method MarshalMessage(schema: Schema, t: nat, m: Message, e: Encoder)
    requires E.MessageOk(schema, t, m)
    modifies e
    ensures e.buf == old(e.buf) + E.MessageTo(schema, t, m, [])
    decreases m, 2
  {
    var mt := schema(t);
    assert |m.slots| == |mt.fields|;
    hide E.FieldTo, E.PrefixTo, E.MessageOk, SlotTyped, E.ValueOk, E.Emitted;
    e.Byte(LBRACE);
    ghost var head := e.buf;
    var wrote := false;
    for i := 0 to |mt.fields|
      invariant head + E.FieldsTo(schema, mt, m, 0, false, [RBRACE]) == e.buf + E.FieldsTo(schema, mt, m, i, wrote, [RBRACE])
    {
      var f := mt.fields[i];
      if E.Emitted(f, i, m) {
        ghost var before, more := e.buf, E.FieldsTo(schema, mt, m, i + 1, true, [RBRACE]);
        ghost var was := wrote;
        FieldTyped(schema, t, m, i);
        wrote := e.FieldPrefix(wrote, f.json);
        MarshalField(schema, f, i, m, e);
        FieldAppend(schema, f, i, m, more);
        PrefixAppend(was, f.json, E.FieldTo(schema, f, i, m, more));
        Regroup(before, E.PrefixTo(was, f.json, []), E.FieldTo(schema, f, i, m, []), more);
      }
    }
    e.Byte(RBRACE);
    NothingMore([RBRACE]);
    Regroup(old(e.buf), [LBRACE], E.FieldsTo(schema, mt, m, 0, false, [RBRACE]), []);
  }
}
