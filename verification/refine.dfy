/**
 The ordered decoder refines the one for any order: giving up costs a restart and nothing else, at
 the top and at every nested message.
 */
module Refine {
  import opened Bytes
  import opened Text
  import opened Cursor
  import opened Schema
  import opened Generated

  /** A key without escapes between quotes is read as it stands. */
  lemma RawKey(u: bytes, name: bytes)
    requires At(u, QUOTE) && RawName(u[1..], name) && AllPlain(name)
    ensures ReadKeyFast(u) == Ok(name, u[1..][|name| + 1..])
  {
    var v := u[1..];
    var rest := v[|name| + 1..];
    assert v == name + ([QUOTE] + rest);
    ScanPlainRun(name, [QUOTE] + rest);
    assert ([QUOTE] + rest)[1..] == rest;
    assert ScanString([QUOTE] + rest) == Scanned([], false, rest);
    assert name + [] == name;
    SkipWsStop(u);
    KeyFastIsReadString(u);
  }

  /** What MatchFast reports about the next key is what NextObjectKey finds there. */
  lemma MatchRefines(s: bytes, first: bool, name: bytes)
    requires AllPlain(name)
    ensures match MatchFast(s, first, name)
            case MatchErr => NextKey(s, first).NoKey?
            case MatchEnd(rest) => NextKey(s, first) == EndObject(rest)
            case Matched(u) => NextKey(s, first) == Key(name, u)
            case NoMatch(u) => NextKey(u, first) == NextKey(s, first)
  {
    var t := SkipWs(s);
    SkipWsStop(t);
    if t != [] && t[0] != RBRACE && Separator(t, first).Some? {
      var u := Separator(t, first).value;
      if At(u, QUOTE) && RawName(u[1..], name) {
        RawKey(u, name);
      }
    }
  }

  lemma {:induction false} ItemAgrees(env: Env, k: Kind, s: bytes, depth: nat)
    requires SchemaOk(env.schema)
    ensures ReadItem(env, true, k, s, depth) == ReadItem(env, false, k, s, depth)
    decreases |s|, 3, 0
  {
    if k.MessageKind? {
      MessageAgrees(env, k.message, s, depth);
    }
  }

  lemma {:induction false} ListAgrees(env: Env, k: Kind, s: bytes, first: bool, depth: nat)
    requires SchemaOk(env.schema)
    ensures ReadList(env, true, k, s, first, depth) == ReadList(env, false, k, s, first, depth)
    decreases |s|, 5, 0
  {
    hide SchemaOk, ReadItem, ReadNull, NextElem;
    match NextElem(s, first)
    case NoElem =>
    case EndArray(_) =>
    case Element(u) =>
      ItemAgrees(env, k, u, depth);
      match ReadItem(env, false, k, u, depth)
      case Err =>
      case Ok(_, v) => ListAgrees(env, k, v, false, depth);
  }

  lemma {:induction false} PayloadAgrees(env: Env, f: Field, s: bytes, depth: nat)
    requires SchemaOk(env.schema)
    ensures ReadPayload(env, true, f, s, depth) == ReadPayload(env, false, f, s, depth)
    decreases |s|, 4, 0
  {
    ItemAgrees(env, f.kind, s, depth);
    match Begin(s, LBRACKET, depth)
    case None =>
    case Some(u) => ListAgrees(env, f.kind, u, true, depth + 1);
  }

  lemma {:induction false} MessageAgrees(env: Env, t: nat, s: bytes, depth: nat)
    requires SchemaOk(env.schema)
    ensures ReadMessage(env, true, t, s, depth) == SlowMessage(env, t, s, depth)
    decreases |s|, 2, 0
  {
    FastRefines(env, t, s, depth);
  }

  /**
   The ordered decoder never fails and never succeeds where the other would not: its error is an
   error of the other, and its result is the other's, message and position alike.
   */
  lemma {:induction false} FastRefines(env: Env, t: nat, s: bytes, depth: nat)
    requires SchemaOk(env.schema)
    ensures match FastMessage(env, t, s, depth)
            case FastErr => SlowMessage(env, t, s, depth).Err?
            case FastDone(m, rest) => SlowMessage(env, t, s, depth) == Ok(m, rest)
            case GiveUp => true
    decreases |s|, 1, 0
  {
    match Begin(s, LBRACE, depth)
    case None =>
    case Some(u) => FieldsRefine(env, t, 0, u, true, {}, {}, Fresh(env.schema(t)), depth + 1);
  }

  lemma SchemaGives(schema: Schema, t: nat, i: nat)
    requires SchemaOk(schema) && i < |schema(t).fields|
    ensures AllPlain(schema(t).fields[i].json)
    ensures Find(schema(t), schema(t).fields[i].json) == Some(i)
  {
    FieldIsOk(schema, t, i);
    FindUnique(schema(t), schema(t).fields[i].json, i);
  }

  /** Behind the last field the ordered decoder accepts only the end of the object. */
  lemma EndRefines(env: Env, t: nat, s: bytes, first: bool, seen: set<nat>, seenOneofs: set<nat>, m: Message, depth: nat)
    requires Shaped(env.schema(t), m)
    ensures match FastFields(env, t, |env.schema(t).fields|, s, first, seenOneofs, m, depth)
            case FastErr => SlowLoop(env, t, s, first, seen, seenOneofs, m, depth).Err?
            case FastDone(m', rest) => SlowLoop(env, t, s, first, seen, seenOneofs, m, depth) == Ok(m', rest)
            case GiveUp => true
  {
    hide Find, ReadPayload, Store, SkipValue, Separator, AfterColon;
  }

  /** Both decoders on an object whose next key is the expected one. */
  lemma KeyTurn(env: Env, t: nat, i: nat, s: bytes, u: bytes, first: bool, seen: set<nat>, seenOneofs: set<nat>, m: Message, depth: nat)
    requires i < |env.schema(t).fields| && Shaped(env.schema(t), m) && i !in seen && |u| < |s|
    requires MatchFast(s, first, env.schema(t).fields[i].json) == Matched(u)
    requires NextKey(s, first) == Key(env.schema(t).fields[i].json, u)
    requires Find(env.schema(t), env.schema(t).fields[i].json) == Some(i)
    requires ReadPayload(env, true, env.schema(t).fields[i], u, depth) == ReadPayload(env, false, env.schema(t).fields[i], u, depth)
    ensures var fast := FastFields(env, t, i, s, first, seenOneofs, m, depth);
            var slow := SlowLoop(env, t, s, first, seen, seenOneofs, m, depth);
            var p := ReadPayload(env, false, env.schema(t).fields[i], u, depth);
            && (p.Err? ==> fast.FastErr? && slow.Err?)
            && (p.Ok? ==>
                  var next := Store(env.schema(t), i, p.value, m, seenOneofs);
                  && (next.None? ==> fast.FastErr? && slow.Err?)
                  && (next.Some? ==>
                        && fast == FastFields(env, t, i + 1, p.rest, false, next.value.1, next.value.0, depth)
                        && slow == SlowLoop(env, t, p.rest, false, seen + {i}, next.value.1, next.value.0, depth)))
  {
    hide ReadPayload, Store, MatchFast, NextKey, Find, SkipValue;
  }

  /** Invariant: everything seen so far comes before the field the ordered decoder looks for next. */
  lemma {:induction false} FieldsRefine(env: Env, t: nat, i: nat, s: bytes, first: bool, seen: set<nat>, seenOneofs: set<nat>, m: Message, depth: nat)
    requires SchemaOk(env.schema)
    requires i <= |env.schema(t).fields| && Shaped(env.schema(t), m)
    requires forall j :: j in seen ==> j < i
    ensures match FastFields(env, t, i, s, first, seenOneofs, m, depth)
            case FastErr => SlowLoop(env, t, s, first, seen, seenOneofs, m, depth).Err?
            case FastDone(m', rest) => SlowLoop(env, t, s, first, seen, seenOneofs, m, depth) == Ok(m', rest)
            case GiveUp => true
    decreases |s|, 0, |env.schema(t).fields| - i
  {
    var mt := env.schema(t);
    if i == |mt.fields| {
      EndRefines(env, t, s, first, seen, seenOneofs, m, depth);
    } else {
      var f := mt.fields[i];
      SchemaGives(env.schema, t, i);
      MatchRefines(s, first, f.json);
      hide SchemaOk, MatchFast, NextKey, ReadPayload, Store, Find, SkipValue;
      match MatchFast(s, first, f.json)
      case MatchErr =>
      case MatchEnd(_) =>
      case NoMatch(u) =>
        FieldsRefine(env, t, i + 1, u, first, seen, seenOneofs, m, depth);
        KeySame(env, t, s, u, first, seen, seenOneofs, m, depth);
      case Matched(u) =>
        PayloadAgrees(env, f, u, depth);
        KeyTurn(env, t, i, s, u, first, seen, seenOneofs, m, depth);
        hide FastFields, SlowLoop;
        var p := ReadPayload(env, false, f, u, depth);
        if p.Ok? {
          var next := Store(mt, i, p.value, m, seenOneofs);
          if next.Some? {
            FieldsRefine(env, t, i + 1, p.rest, false, seen + {i}, next.value.1, next.value.0, depth);
          }
        }
    }
  }

  /** The decoder for any order only looks at the next key. */
  lemma KeySame(env: Env, t: nat, s: bytes, u: bytes, first: bool, seen: set<nat>, seenOneofs: set<nat>, m: Message, depth: nat)
    requires Shaped(env.schema(t), m) && NextKey(s, first) == NextKey(u, first)
    ensures SlowLoop(env, t, s, first, seen, seenOneofs, m, depth) == SlowLoop(env, t, u, first, seen, seenOneofs, m, depth)
  {
    hide ReadPayload, Store, NextKey, Find, SkipValue;
  }

  /** What the entry point's peek refuses, the decoder for any order refuses too. */
  lemma PeekRefusal(env: Env, t: nat, data: bytes)
    requires Peek(data, 0).None?
    ensures SlowMessage(env, t, data, 0).Err?
  {
    match Begin(data, LBRACE, 0)
    case None =>
    case Some(u) => assert NextKey(u, true).NoKey?;
  }

  /**
   The generated entry point, with its peek, its ordered attempt, its restarts and its final check,
   accepts exactly what the decoder for any order accepts from the start, with the same message.
   */
  lemma EntryIsSlow(env: Env, t: nat, data: bytes)
    requires SchemaOk(env.schema)
    ensures Unmarshal(env, t, data) == Finish(SlowMessage(env, t, data, 0))
  {
    FastRefines(env, t, data, 0);
    if env.schema(t).fields != [] && Peek(data, 0).None? {
      PeekRefusal(env, t, data);
    }
  }
}
