/**
 What the table decoder comes to: whatever its target held, and whichever of its two paths it takes,
 it is the generated decoder working from scratch, but for the traces of discarded enum names.
 */
module Agreement {
  import opened Bytes
  import opened Text
  import opened Json
  import opened Schema
  import opened Generated
  import opened Meanings
  import opened Table
  import opened TableMeanings
  import opened Traces
  import opened EnumNames
  import opened Reuse
  import Encode
  import Refine
  import RoundTrip
  import opened Acts
  import opened Exact

  // ---------------------------------------------------------------- exactly when the decoders agree

  /** `s` is a JSON object followed by `rest` in which every discarded enum name lands where `base` holds zero. */
  ghost predicate Silent(schema: Schema, t: nat, base: Message, s: bytes, rest: bytes)
    requires Shaped(schema(t), base)
  {
    exists w, v :: AllWs(w) && Valid(v) && s == w + TreeTo(v, rest) && QuietObject(schema, t, base, v)
  }

  /** On the text of a JSON value, both paths against the generated decoder. */
  lemma TextExact(env: Env, t: nat, target: Message, w: bytes, v: Tree, k: bytes, depth: nat)
    requires SchemaOk(env.schema) && Shaped(env.schema(t), target) && TargetOk(env.schema(t), target) && AllWs(w) && Valid(v)
    ensures var s := w + TreeTo(v, k);
            var g := SlowMessage(env, t, s, depth);
            && (NarrowMessage(env, t, target, s, depth) == g <==> g.Err? || QuietObject(env.schema, t, target, v))
            && (WideMessage(env, t, target, s, depth) == g <==> g.Err? || QuietObject(env.schema, t, Fresh(env.schema(t)), v))
            && (IntoMessage(env, t, target, s, depth) == g <==> g.Err? || QuietObject(env.schema, t, Start(env.schema(t), target), v))
  {
    hide SchemaOk, TargetOk, SlowMessage, MessageOf, ObjectWith, NarrowMessage, WideMessage, QuietObject, TreeTo, Valid, AllWs, Fresh;
    var m := Fresh(env.schema(t));
    FreshTarget(env.schema(t));
    MessageIs(env, t, w, v, k, depth);
    NarrowIs(env, t, target, w, v, k, depth);
    WideIs(env, t, target, w, v, k, depth);
    ObjectExact(env, t, target, v, depth);
    ObjectExact(env, t, m, v, depth);
  }

  lemma FreshTarget(mt: MessageType)
    ensures TargetOk(mt, Fresh(mt))
  {
  }

  /** Whatever is accepted is a JSON object. */
  lemma AcceptedTree(env: Env, t: nat, s: bytes, depth: nat) returns (w: bytes, v: Tree)
    requires SlowMessage(env, t, s, depth).Ok?
    ensures AllWs(w) && Valid(v) && s == w + TreeTo(v, SlowMessage(env, t, s, depth).rest)
    ensures MessageOf(env, t, v, depth).Some?
  {
    hide SlowMessage, MessageOf, TreeTo, Valid, AllWs;
    MessageSkips(env, t, s, depth);
    w, v := SkipSound(s, depth);
    MessageIs(env, t, w, v, SlowMessage(env, t, s, depth).rest, depth);
  }

  /**
   For every input and every target the table decoder accepts what the generated decoder accepts and
   stops where it stops, and the messages are equal exactly when every discarded enum name lands where
   zero is held when decoding begins.
   */
  lemma MessageInto(env: Env, t: nat, target: Message, s: bytes, depth: nat)
    requires SchemaOk(env.schema) && Shaped(env.schema(t), target) && TargetOk(env.schema(t), target)
    ensures var r, r' := IntoMessage(env, t, target, s, depth), SlowMessage(env, t, s, depth);
            && SameEnd(r, r')
            && (r == r' <==> r'.Err? || Silent(env.schema, t, Start(env.schema(t), target), s, r'.rest))
  {
    hide SchemaOk, TargetOk, IntoMessage, SlowMessage, NarrowMessage, WideMessage, QuietObject, TreeTo, Valid, AllWs, Start, MessageOf;
    MessageEnds(env, t, target, s, depth);
    var r' := SlowMessage(env, t, s, depth);
    if r'.Ok? {
      var base := Start(env.schema(t), target);
      var w, v := AcceptedTree(env, t, s, depth);
      TextExact(env, t, target, w, v, r'.rest, depth);
      if Silent(env.schema, t, base, s, r'.rest) {
        var x, u :| AllWs(x) && Valid(u) && s == x + TreeTo(u, r'.rest) && QuietObject(env.schema, t, base, u);
        TextExact(env, t, target, x, u, r'.rest, depth);
      }
    }
  }

  /** On a fresh target the decoders agree on every input exactly for the types that cannot show a discarded name. */
  lemma SchemaDecides(env: Env, t: nat, depth: nat)
    requires SchemaOk(env.schema) && env.discard && depth <= MAX_DEPTH
    ensures (forall s :: IntoMessage(env, t, Fresh(env.schema(t)), s, depth) == SlowMessage(env, t, s, depth)) <==>
            !Shows(env.schema, t, MAX_DEPTH - depth)
  {
    hide SchemaOk, TargetOk, IntoMessage, SlowMessage, NarrowMessage, WideMessage, QuietObject, TreeTo, Valid, MessageOf, Shows;
    if Shows(env.schema, t, MAX_DEPTH - depth) {
      var v := Witness(env, t, depth);
      NoSpace();
      FreshTarget(env.schema(t));
      TextExact(env, t, Fresh(env.schema(t)), [], v, [], depth);
      MessageIs(env, t, [], v, [], depth);
    } else {
      forall s ensures IntoMessage(env, t, Fresh(env.schema(t)), s, depth) == SlowMessage(env, t, s, depth) {
        TableIsGenerated(env, t, s, depth);
      }
    }
  }

  /** On a fresh target the table decoder is the generated one wherever no discarded name can show. */
  lemma TableIsGenerated(env: Env, t: nat, s: bytes, depth: nat)
    requires SchemaOk(env.schema) && (env.discard ==> depth <= MAX_DEPTH && !Shows(env.schema, t, MAX_DEPTH - depth))
    ensures IntoMessage(env, t, Fresh(env.schema(t)), s, depth) == SlowMessage(env, t, s, depth)
  {
    hide SchemaOk, TargetOk, IntoMessage, SlowMessage, QuietObject, TreeTo, Valid, MessageOf, Shows, NarrowMessage, WideMessage, AllWs;
    var m := Fresh(env.schema(t));
    FreshTarget(env.schema(t));
    MessageEnds(env, t, m, s, depth);
    if SlowMessage(env, t, s, depth).Ok? {
      var w, v := AcceptedTree(env, t, s, depth);
      if env.discard {
        QuietWithout(env, t, v, depth);
      } else {
        AcceptedQuiet(env, t, m, v, depth);
      }
      TextExact(env, t, m, w, v, SlowMessage(env, t, s, depth).rest, depth);
    }
  }

  /** Reuse equals fresh: with unknown fields refused, what the target held before never shows, on either path. */
  lemma ReuseIsFresh(env: Env, t: nat, target: Message, s: bytes, depth: nat)
    requires SchemaOk(env.schema) && Shaped(env.schema(t), target) && TargetOk(env.schema(t), target) && !env.discard
    ensures IntoMessage(env, t, target, s, depth) == IntoMessage(env, t, Fresh(env.schema(t)), s, depth)
    ensures NarrowMessage(env, t, target, s, depth) == WideMessage(env, t, target, s, depth)
    ensures NarrowMessage(env, t, target, s, depth) == SlowMessage(env, t, s, depth)
  {
    hide SchemaOk, TargetOk, SlowMessage, QuietObject, TreeTo, Valid, MessageOf, NarrowMessage, WideMessage, AllWs, Fresh;
    var m := Fresh(env.schema(t));
    FreshTarget(env.schema(t));
    MessageEnds(env, t, m, s, depth);
    MessageEnds(env, t, target, s, depth);
    if SlowMessage(env, t, s, depth).Ok? {
      var w, v := AcceptedTree(env, t, s, depth);
      AcceptedQuiet(env, t, m, v, depth);
      AcceptedQuiet(env, t, target, v, depth);
      TextExact(env, t, m, w, v, SlowMessage(env, t, s, depth).rest, depth);
      TextExact(env, t, target, w, v, SlowMessage(env, t, s, depth).rest, depth);
    }
  }

  /** With more than 64 fields what the target held never shows, even where names are discarded; empty targets are alike on both paths. */
  lemma WideForgets(env: Env, t: nat, target: Message, s: bytes, depth: nat)
    requires SchemaOk(env.schema) && Shaped(env.schema(t), target)
    ensures WideMessage(env, t, target, s, depth) == WideMessage(env, t, Fresh(env.schema(t)), s, depth)
    ensures WideMessage(env, t, target, s, depth) == NarrowMessage(env, t, Fresh(env.schema(t)), s, depth)
  {
    var m := Fresh(env.schema(t));
    ClearAll(env.schema(t), target);
    ClearAll(env.schema(t), m);
    hide SchemaOk, ClearMissing, Fresh, IntoLoop, SlowMessage, MessageOf, TreeTo, Valid, AllWs;
    MessageEnds(env, t, target, s, depth);
    MessageEnds(env, t, m, s, depth);
    if SlowMessage(env, t, s, depth).Ok? {
      var w, v := AcceptedTree(env, t, s, depth);
      WideIs(env, t, target, w, v, SlowMessage(env, t, s, depth).rest, depth);
      NarrowIs(env, t, m, w, v, SlowMessage(env, t, s, depth).rest, depth);
    }
  }

  /** `s` is a JSON object followed by `rest` in which every discarded enum name lands where nothing of `base` is left. */
  ghost predicate Unseen(schema: Schema, t: nat, base: Message, s: bytes, rest: bytes)
    requires Shaped(schema(t), base)
  {
    exists w, v :: AllWs(w) && Valid(v) && s == w + TreeTo(v, rest) && HiddenObject(schema, t, base, v)
  }

  lemma ReuseText(env: Env, t: nat, target: Message, w: bytes, v: Tree, k: bytes, depth: nat)
    requires SchemaOk(env.schema) && Shaped(env.schema(t), target) && TargetOk(env.schema(t), target) && AllWs(w) && Valid(v)
    ensures var s := w + TreeTo(v, k);
            var r, r' := NarrowMessage(env, t, target, s, depth), WideMessage(env, t, target, s, depth);
            && SameEnd(r, r')
            && (r == r' <==> r.Err? || HiddenObject(env.schema, t, target, v))
  {
    hide SchemaOk, TargetOk, SlowMessage, ObjectWith, NarrowMessage, WideMessage, HiddenObject, TreeTo, Valid, AllWs, Fresh;
    MessageEnds(env, t, target, w + TreeTo(v, k), depth);
    NarrowIs(env, t, target, w, v, k, depth);
    WideIs(env, t, target, w, v, k, depth);
    if ObjectWith(env, t, target, v, depth).Some? {
      ObjectReuse(env, t, target, v, depth);
    }
  }

  /**
   Where names are discarded the two paths accept alike, and on a target that is reused they come to
   the same message exactly when no discarded name lands where something of the target is left.
   */
  lemma PathsAgree(env: Env, t: nat, target: Message, s: bytes, depth: nat)
    requires SchemaOk(env.schema) && Shaped(env.schema(t), target) && TargetOk(env.schema(t), target)
    ensures var r, r' := NarrowMessage(env, t, target, s, depth), WideMessage(env, t, target, s, depth);
            && SameEnd(r, r')
            && (r == r' <==> r.Err? || Unseen(env.schema, t, target, s, r.rest))
  {
    hide SchemaOk, TargetOk, SlowMessage, NarrowMessage, WideMessage, HiddenObject, TreeTo, Valid, AllWs, MessageOf;
    MessageEnds(env, t, target, s, depth);
    var r := NarrowMessage(env, t, target, s, depth);
    if r.Ok? {
      var w, v := AcceptedTree(env, t, s, depth);
      ReuseText(env, t, target, w, v, r.rest, depth);
      if Unseen(env.schema, t, target, s, r.rest) {
        var x, u :| AllWs(x) && Valid(u) && s == x + TreeTo(u, r.rest) && HiddenObject(env.schema, t, target, u);
        ReuseText(env, t, target, x, u, r.rest, depth);
      }
    }
  }

  // ---------------------------------------------------------------- whole inputs

  /** The whole of Unmarshal, with the table or with generated code. */
  lemma UnmarshalsAgree(env: Env, t: nat, target: Message, data: bytes)
    requires SchemaOk(env.schema) && Shaped(env.schema(t), target) && TargetOk(env.schema(t), target)
    ensures UnmarshalTable(env, t, target, data) == Unmarshal(env, t, data) <==>
            || Unmarshal(env, t, data).None?
            || (SlowMessage(env, t, data, 0).Ok? &&
                Silent(env.schema, t, Start(env.schema(t), target), data, SlowMessage(env, t, data, 0).rest))
  {
    hide SchemaOk, TargetOk, IntoMessage, SlowMessage, Unmarshal, Silent, Start;
    MessageInto(env, t, target, data, 0);
    Refine.EntryIsSlow(env, t, data);
  }

  /** Where nothing is discarded, they agree on every input and every target. */
  lemma TableUnmarshals(env: Env, t: nat, target: Message, data: bytes)
    requires SchemaOk(env.schema) && Shaped(env.schema(t), target) && TargetOk(env.schema(t), target) && !env.discard
    ensures UnmarshalTable(env, t, target, data) == Unmarshal(env, t, data)
  {
    hide SchemaOk, TargetOk, SlowMessage, NarrowMessage, WideMessage, Unmarshal;
    ReuseIsFresh(env, t, target, data, 0);
    Refine.EntryIsSlow(env, t, data);
  }

  /**
   Duplicate detection of the table decoder is exact on every target, discarding or not, at every
   number of fields: it accepts an object if and only if every key is known or discarded, every value
   decodes, and no field or oneof occurs twice under any of its names.
   */
  lemma TableAcceptsExactly(env: Env, t: nat, target: Message, w: bytes, es: seq<Entry>, k: bytes, depth: nat)
    requires SchemaOk(env.schema) && Shaped(env.schema(t), target) && TargetOk(env.schema(t), target)
    requires AllWs(w) && ValidEntries(es)
    ensures IntoMessage(env, t, target, ObjectText(w, es, k), depth).Ok? <==>
              && depth + 1 <= MAX_DEPTH
              && (forall i :: 0 <= i < |es| ==> ActOf(env, t, es[i], depth + 1).Some?)
              && NoClash(env, t, es, depth + 1)
  {
    hide SchemaOk, IntoMessage, SlowMessage, ObjectText, ActOf, NoClash;
    MessageEnds(env, t, target, ObjectText(w, es, k), depth);
    AcceptedExactly(env, t, w, es, k, depth);
  }

  /** What the generated encoder prints, the table decoder reads back into any target, within the nesting limit. */
  lemma TableReadsBack(env: Env, t: nat, target: Message, m: Message)
    requires SchemaOk(env.schema) && Shaped(env.schema(t), target) && TargetOk(env.schema(t), target) && !env.discard
    requires Encode.MessageOk(env.schema, t, m)
    ensures UnmarshalTable(env, t, target, Encode.MessageTo(env.schema, t, m, [])) ==
            if Encode.MessageFits(m, Bytes.MAX_DEPTH) then Some(m) else None
  {
    hide *;
    TableUnmarshals(env, t, target, Encode.MessageTo(env.schema, t, m, []));
    RoundTrip.UnmarshalMarshal(env, t, m);
  }

  // ---------------------------------------------------------------- where the decoders differ

  /** The member for field `i` that gives a name its enum does not know. */
  function Nameless(f: Field, name: bytes): Tree {
    OneMember(f.json, Tree.Str(Spelled(name)))
  }

  const UNKNOWN: Payload := Payload.Single(Unknown)

  /** What both decoders make of such an object. */
  lemma NamelessMeans(env: Env, t: nat, i: nat, base: Message, name: bytes, depth: nat)
    requires SchemaOk(env.schema) && env.discard && depth < MAX_DEPTH && i < |env.schema(t).fields| && Shaped(env.schema(t), base)
    requires IsSingularEnum(env.schema(t).fields[i]) && AllPlain(name) && FindName(env.schema(t).fields[i].kind.values, name).None?
    ensures var mt := env.schema(t);
            var v := Nameless(mt.fields[i], name);
            && Valid(v)
            && MessageOf(env, t, v, depth) == Some(Store(mt, i, UNKNOWN, Fresh(mt), {}).value.0)
            && ObjectWith(env, t, base, v, depth) == Some(Cleared(mt, NextInto(mt, Decoded(base, {}, {}), Assign(i, UNKNOWN))))
  {
    var mt := env.schema(t);
    var f := mt.fields[i];
    var v := Tree.Str(Spelled(name));
    UnknownMeans(env, f, name, depth + 1);
    OneMemberMeans(env, t, i, v, depth);
    NamelessActs(env, t, i, base, v, depth + 1);
    hide SchemaOk, PayloadOf, PayloadWith, Spelled, ActsOf, ActsWith, Store, StoreInto, Fresh, Cleared;
    RunOne(mt, i, base);
  }

  lemma NamelessActs(env: Env, t: nat, i: nat, base: Message, v: Tree, depth: nat)
    requires SchemaOk(env.schema) && i < |env.schema(t).fields| && Shaped(env.schema(t), base) && Valid(v)
    requires PayloadOf(env, env.schema(t).fields[i], v, depth) == Some(UNKNOWN)
    ensures var ms := OneMember(env.schema(t).fields[i].json, v).members;
            && ValidMembers(ms)
            && ActsOf(env, t, ms, depth) == Some([Assign(i, UNKNOWN)])
            && ActsWith(env, t, base, ms, depth) == Some([Assign(i, UNKNOWN)])
  {
    var f := env.schema(t).fields[i];
    FieldIsOk(env.schema, t, i);
    SpelledMeans(f.json);
    FindUnique(env.schema(t), f.json, i);
    PayloadWithUnknown(env, f, Existing(f, base.slots[i]), v, depth);
    hide SchemaOk, PayloadOf, PayloadWith, Spelled, Find, Existing;
    assert Meaning(OneMember(f.json, v).members.head.key) == f.json;
  }

  /** Names decode alike whatever the field held. */
  lemma PayloadWithUnknown(env: Env, f: Field, prior: Option<Message>, v: Tree, depth: nat)
    requires Valid(v) && PayloadOf(env, f, v, depth) == Some(UNKNOWN)
    ensures PayloadWith(env, f, prior, v, depth) == Some(UNKNOWN)
  {
    hide MessageOf, ObjectWith, ListOf, ListWith, PairsOf, InnerStart;
  }

  lemma RunOne(mt: MessageType, i: nat, base: Message)
    requires i < |mt.fields| && Shaped(mt, base)
    ensures Run(mt, [Assign(i, UNKNOWN)], {}, {}, Fresh(mt)) == Some(Store(mt, i, UNKNOWN, Fresh(mt), {}).value.0)
    ensures RunInto(mt, [Assign(i, UNKNOWN)], Decoded(base, {}, {})) == Some(NextInto(mt, Decoded(base, {}, {}), Assign(i, UNKNOWN)))
  {
  }

  /** Both decoders on the text `{"<field>":"<name>"}`. */
  lemma NamelessText(env: Env, t: nat, i: nat, target: Message, name: bytes, depth: nat)
    requires SchemaOk(env.schema) && env.discard && depth < MAX_DEPTH && i < |env.schema(t).fields| && Shaped(env.schema(t), target)
    requires IsSingularEnum(env.schema(t).fields[i]) && AllPlain(name) && FindName(env.schema(t).fields[i].kind.values, name).None?
    ensures var mt := env.schema(t);
            var s := NameText(mt.fields[i].json, name);
            && SlowMessage(env, t, s, depth) == Ok(Store(mt, i, UNKNOWN, Fresh(mt), {}).value.0, [])
            && NarrowMessage(env, t, target, s, depth) == Ok(Cleared(mt, NextInto(mt, Decoded(target, {}, {}), Assign(i, UNKNOWN))), [])
            && WideMessage(env, t, target, s, depth) == Ok(Cleared(mt, NextInto(mt, Decoded(Fresh(mt), {}, {}), Assign(i, UNKNOWN))), [])
  {
    var mt := env.schema(t);
    var v := Nameless(mt.fields[i], name);
    FieldIsOk(env.schema, t, i);
    NameTextIs(mt.fields[i].json, name);
    NamelessMeans(env, t, i, target, name, depth);
    NamelessMeans(env, t, i, Fresh(mt), name, depth);
    assert [] + TreeTo(v, []) == NameText(mt.fields[i].json, name);
    NoSpace();
    hide *;
    MessageIs(env, t, [], v, [], depth);
    NarrowIs(env, t, target, [], v, [], depth);
    WideIs(env, t, target, [], v, [], depth);
    LiftCases(MessageOf(env, t, v, depth), []);
    LiftCases(ObjectWith(env, t, target, v, depth), []);
    LiftCases(ObjectWith(env, t, Fresh(mt), v, depth), []);
  }

  /** A discarded name leaves an optional field unset by the table and set to zero by generated code, whatever the target held. */
  lemma OptionalEnumDiffers(env: Env, t: nat, i: nat, target: Message, name: bytes, depth: nat)
    requires SchemaOk(env.schema) && env.discard && depth < MAX_DEPTH && i < |env.schema(t).fields| && Shaped(env.schema(t), target)
    requires env.schema(t).fields[i].kind.EnumKind? && env.schema(t).fields[i].card.Optional?
    requires AllPlain(name) && FindName(env.schema(t).fields[i].kind.values, name).None?
    ensures var s := NameText(env.schema(t).fields[i].json, name);
            var r, g := IntoMessage(env, t, target, s, depth), SlowMessage(env, t, s, depth);
            && r.Ok? && r.rest == [] && r.value.slots[i] == Pointer(None)
            && g.Ok? && g.rest == [] && g.value.slots[i] == Pointer(Some(Num(0)))
  {
    hide SchemaOk, SlowMessage, NarrowMessage, WideMessage, NameText, FindName;
    NamelessText(env, t, i, target, name, depth);
  }

  /** And it leaves an empty oneof empty by the table, where generated code populates it with zero. */
  lemma OneofEnumDiffers(env: Env, t: nat, i: nat, name: bytes, depth: nat)
    requires SchemaOk(env.schema) && env.discard && depth < MAX_DEPTH && i < |env.schema(t).fields|
    requires env.schema(t).fields[i].kind.EnumKind? && env.schema(t).fields[i].card.Member?
    requires AllPlain(name) && FindName(env.schema(t).fields[i].kind.values, name).None?
    ensures var s := NameText(env.schema(t).fields[i].json, name);
            var r, g := IntoMessage(env, t, Fresh(env.schema(t)), s, depth), SlowMessage(env, t, s, depth);
            && r.Ok? && r.rest == [] && r.value.oneofs == map[]
            && g.Ok? && g.rest == [] && g.value.oneofs == map[env.schema(t).fields[i].card.oneof := Choice(i, Num(0))]
  {
    hide SchemaOk, SlowMessage, NarrowMessage, WideMessage, NameText, FindName;
    NamelessText(env, t, i, Fresh(env.schema(t)), name, depth);
  }

  /**
   A plain field of a reused target keeps its old number on the path for at most 64 fields, although
   it counts as seen; the path for more fields gives zero, as generated code does.
   */
  lemma ReusedEnumDiffers(env: Env, t: nat, i: nat, target: Message, name: bytes, depth: nat)
    requires SchemaOk(env.schema) && env.discard && depth < MAX_DEPTH && i < |env.schema(t).fields| && Shaped(env.schema(t), target)
    requires env.schema(t).fields[i].kind.EnumKind? && env.schema(t).fields[i].card.Implicit?
    requires AllPlain(name) && FindName(env.schema(t).fields[i].kind.values, name).None?
    ensures var s := NameText(env.schema(t).fields[i].json, name);
            var r, r', g := NarrowMessage(env, t, target, s, depth), WideMessage(env, t, target, s, depth), SlowMessage(env, t, s, depth);
            && r.Ok? && r.rest == [] && r.value.slots[i] == target.slots[i]
            && r'.Ok? && r'.rest == [] && r'.value.slots[i] == One(Num(0))
            && g.Ok? && g.rest == [] && g.value.slots[i] == One(Num(0))
  {
    hide SchemaOk, SlowMessage, NarrowMessage, WideMessage, NameText, FindName;
    NamelessText(env, t, i, target, name, depth);
  }
}
