/**
 Everything the decoder accepts is a JSON value, so its acceptance and its result are those of the
 parse tree; and the order of an object's members does not matter.
 */
module Exact {
  import opened Bytes
  import opened Text
  import opened Numbers
  import opened Cursor
  import opened Json
  import opened Schema
  import opened Generated
  import opened Acts
  import opened Meanings
  import Refine

  // ---------------------------------------------------------------- scalars are JSON

  lemma {:induction false} DigitLoopEnd(s: bytes, u: nat, limit: nat)
    requires u <= limit && DigitLoop(s, u, limit).Simple?
    ensures SkipDigits(s) == DigitLoop(s, u, limit).rest
  {
    if s != [] && IsDigit(s[0]) {
      DigitLoopEnd(s[1..], u * 10 + (s[0] - ZERO), limit);
    }
  }

  lemma SimpleIsNumber(s: bytes)
    ensures SimpleInt64(s).Simple? ==> NumberEnd(s) == Some(SimpleInt64(s).rest) && Ended(SimpleInt64(s).rest)
    ensures SimpleUint64(s).Simple? ==> NumberEnd(s) == Some(SimpleUint64(s).rest) && Ended(SimpleUint64(s).rest)
  {
    if SimpleInt64(s).Simple? {
      var t := if At(s, MINUS) then s[1..] else s;
      DigitLoopEnd(t, 0, if At(s, MINUS) then MAX_INT64 + 1 else MAX_INT64);
    }
    if SimpleUint64(s).Simple? {
      DigitLoopEnd(s, 0, MAX_UINT64);
    }
  }

  /** What an integer reader takes is a string or a number token. */
  lemma IntegerShape(fl: Floats, s: bytes, r: Read<int>)
    requires r == ReadInt64(fl, s) || r == ReadUint64(fl, s)
    requires r.Ok?
    ensures var t := SkipWs(s);
            if At(t, QUOTE) then ReadString(s).Ok? && ReadString(s).rest == r.rest
            else NumberEnd(t) == Some(r.rest) && Ended(r.rest)
  {
    hide NumberEnd, SimpleInt64, SimpleUint64, ParseInt64, ParseUint64, ScanString, Unescape;
    SimpleIsNumber(SkipWs(s));
    SkipWsStop(SkipWs(s));
  }

  lemma TokenSkips(s: bytes, rest: bytes, depth: nat)
    requires NumberEnd(SkipWs(s)) == Some(rest) && Ended(rest)
    ensures SkipValue(s, depth) == Some(rest)
  {
    hide NumberEnd, SkipValue;
    SkipWsSplit(s);
    var t := SkipWs(s);
    var n := NumberSound(t);
    SkipDecides(s[..|s| - |t|], Tree.Number(n), rest, depth);
  }

  lemma WordSkips(s: bytes, word: bytes, depth: nat)
    requires word == TRUE || word == FALSE || word == NULL
    requires StartsWith(SkipWs(s), word) && Ended(SkipWs(s)[|word|..])
    ensures SkipValue(s, depth) == Some(SkipWs(s)[|word|..])
  {
    SkipWsSplit(s);
    var t := SkipWs(s);
    assert t == word + t[|word|..];
    hide SkipValue, SkipWs, StartsWith, Height;
    SkipDecides(s[..|s| - |t|], Lit(word), t[|word|..], depth);
  }

  lemma StringSkips(s: bytes, depth: nat)
    requires ReadString(s).Ok?
    ensures SkipValue(s, depth) == Some(ReadString(s).rest)
  {
  }

  lemma IntegerSkips(fl: Floats, s: bytes, r: Read<int>, depth: nat)
    requires r == ReadInt64(fl, s) || r == ReadUint64(fl, s)
    requires r.Ok?
    ensures SkipValue(s, depth) == Some(r.rest)
  {
    hide ReadInt64, ReadUint64, SkipValue, NumberEnd, ReadString;
    IntegerShape(fl, s, r);
    if At(SkipWs(s), QUOTE) {
      StringSkips(s, depth);
    } else {
      TokenSkips(s, r.rest, depth);
    }
  }

  lemma ScalarSkips(env: Env, kind: Kind, s: bytes, depth: nat)
    requires !kind.MessageKind?
    requires ReadScalar(env, kind, s).Ok? && Ended(ReadScalar(env, kind, s).rest)
    ensures SkipValue(s, depth) == Some(ReadScalar(env, kind, s).rest)
  {
    hide ReadInt64, ReadUint64, SkipValue, ReadString, StartsWith;
    match kind
    case StringKind => StringSkips(s, depth);
    case BoolKind => WordSkips(s, if ReadBool(s).value then TRUE else FALSE, depth);
    case Int32Kind => IntegerSkips(env.floats, s, ReadInt64(env.floats, s), depth);
    case Int64Kind => IntegerSkips(env.floats, s, ReadInt64(env.floats, s), depth);
    case Uint32Kind => IntegerSkips(env.floats, s, ReadUint64(env.floats, s), depth);
    case Uint64Kind => IntegerSkips(env.floats, s, ReadUint64(env.floats, s), depth);
    case EnumKind(_) =>
      if At(SkipWs(s), QUOTE) {
        StringSkips(s, depth);
      } else {
        IntegerSkips(env.floats, s, ReadInt64(env.floats, s), depth);
      }
  }

  // ---------------------------------------------------------------- structures are JSON

  lemma KeyEnds(s: bytes, first: bool)
    requires !first && !NextKey(s, first).NoKey?
    ensures Ended(s)
  {
  }

  lemma ElemEnds(s: bytes, first: bool)
    requires !first && !NextElem(s, first).NoElem?
    ensures Ended(s)
  {
  }

  lemma {:induction false} ItemSkips(env: Env, kind: Kind, s: bytes, depth: nat)
    requires ReadItem(env, false, kind, s, depth).Ok? && Ended(ReadItem(env, false, kind, s, depth).rest)
    ensures SkipValue(s, depth) == Some(ReadItem(env, false, kind, s, depth).rest)
    decreases |s|, 3
  {
    hide SkipValue, SlowMessage, ReadScalar;
    if kind.MessageKind? {
      MessageSkips(env, kind.message, s, depth);
    } else {
      ScalarSkips(env, kind, s, depth);
    }
  }

  lemma {:induction false} ListSkips(env: Env, kind: Kind, s: bytes, first: bool, depth: nat)
    requires ReadList(env, false, kind, s, first, depth).Ok?
    ensures SkipElems(s, first, depth) == Some(ReadList(env, false, kind, s, first, depth).rest)
    decreases |s|, 5
  {
    hide SkipValue, ReadItem, ReadNull;
    match NextElem(s, first)
    case NoElem =>
    case EndArray(_) =>
    case Element(u) =>
      var v := ReadItem(env, false, kind, u, depth).rest;
      ElemEnds(v, false);
      ItemSkips(env, kind, u, depth);
      ListSkips(env, kind, v, false, depth);
  }

  lemma {:induction false} PairsSkip(s: bytes, first: bool, m: map<bytes, bytes>, depth: nat)
    requires ReadPairs(s, first, m).Ok?
    ensures SkipMembers(s, first, depth) == Some(ReadPairs(s, first, m).rest)
    decreases |s|
  {
    hide SkipValue, ReadString;
    match NextKey(s, first)
    case NoKey =>
    case EndObject(_) =>
    case Key(k, u) =>
      StringSkips(u, depth);
      PairsSkip(ReadString(u).rest, false, m[k := ReadString(u).value], depth);
  }

  lemma OpenSkips(s: bytes, depth: nat)
    ensures Begin(s, LBRACE, depth).Some? ==> SkipValue(s, depth) == SkipMembers(Begin(s, LBRACE, depth).value, true, depth + 1)
    ensures Begin(s, LBRACKET, depth).Some? ==> SkipValue(s, depth) == SkipElems(Begin(s, LBRACKET, depth).value, true, depth + 1)
  {
  }

  lemma {:induction false} PayloadSkips(env: Env, f: Field, s: bytes, depth: nat)
    requires ReadPayload(env, false, f, s, depth).Ok? && Ended(ReadPayload(env, false, f, s, depth).rest)
    ensures SkipValue(s, depth) == Some(ReadPayload(env, false, f, s, depth).rest)
    decreases |s|, 4
  {
    hide SkipValue, ReadItem, ReadList, ReadPairs, SkipMembers, SkipElems, StartsWith;
    OpenSkips(s, depth);
    if ReadNull(s).Some? {
      WordSkips(s, NULL, depth);
    } else {
      match f.card
      case StringMap => PairsSkip(Begin(s, LBRACE, depth).value, true, map[], depth + 1);
      case Repeated => ListSkips(env, f.kind, Begin(s, LBRACKET, depth).value, true, depth + 1);
      case _ => ItemSkips(env, f.kind, s, depth);
    }
  }

  lemma {:induction false} LoopSkips(env: Env, t: nat, s: bytes, first: bool, seen: set<nat>, seenOneofs: set<nat>, m: Message, depth: nat)
    requires Shaped(env.schema(t), m) && SlowLoop(env, t, s, first, seen, seenOneofs, m, depth).Ok?
    ensures SkipMembers(s, first, depth) == Some(SlowLoop(env, t, s, first, seen, seenOneofs, m, depth).rest)
    decreases |s|, 0
  {
    hide SkipValue, ReadPayload, Store, Find;
    match NextKey(s, first)
    case NoKey =>
    case EndObject(_) =>
    case Key(key, u) =>
      match Find(env.schema(t), key)
      case None => LoopSkips(env, t, SkipValue(u, depth).value, false, seen, seenOneofs, m, depth);
      case Some(i) =>
        var r := ReadPayload(env, false, env.schema(t).fields[i], u, depth);
        var (m', o') := Store(env.schema(t), i, r.value, m, seenOneofs).value;
        KeyEnds(r.rest, false);
        PayloadSkips(env, env.schema(t).fields[i], u, depth);
        LoopSkips(env, t, r.rest, false, seen + {i}, o', m', depth);
  }

  /** Every object a decoder accepts is a JSON object, taken as a whole. */
  lemma {:induction false} MessageSkips(env: Env, t: nat, s: bytes, depth: nat)
    requires SlowMessage(env, t, s, depth).Ok?
    ensures SkipValue(s, depth) == Some(SlowMessage(env, t, s, depth).rest)
    decreases |s|, 1
  {
    hide SkipValue, SlowLoop, SkipMembers, SkipElems;
    OpenSkips(s, depth);
    LoopSkips(env, t, Begin(s, LBRACE, depth).value, true, {}, {}, Fresh(env.schema(t)), depth + 1);
  }

  // ---------------------------------------------------------------- the decoder is exact

  /** `s` is white space, then a JSON object that means `m`, then `rest`. */
  ghost predicate Denotes(env: Env, t: nat, s: bytes, m: Message, rest: bytes, depth: nat) {
    exists w, v :: AllWs(w) && Valid(v) && s == w + TreeTo(v, rest) && MessageOf(env, t, v, depth) == Some(m)
  }

  /** The decoder accepts exactly the JSON objects that have a meaning, with that meaning. */
  lemma DecoderExact(env: Env, t: nat, s: bytes, m: Message, rest: bytes, depth: nat)
    ensures SlowMessage(env, t, s, depth) == Ok(m, rest) <==> Denotes(env, t, s, m, rest, depth)
  {
    hide SlowMessage, MessageOf, SkipValue, TreeTo;
    if SlowMessage(env, t, s, depth) == Ok(m, rest) {
      MessageSkips(env, t, s, depth);
      var w, v := SkipSound(s, depth);
      MessageIs(env, t, w, v, rest, depth);
    }
    if Denotes(env, t, s, m, rest, depth) {
      var w, v :| AllWs(w) && Valid(v) && s == w + TreeTo(v, rest) && MessageOf(env, t, v, depth) == Some(m);
      MessageIs(env, t, w, v, rest, depth);
    }
  }

  // ---------------------------------------------------------------- order

  /** One member of an object as it stands in the text. */
  datatype Entry = Entry(head: MemberKey, pre: bytes, v: Tree, post: bytes)

  predicate ValidEntry(e: Entry) {
    AllWs(e.head.pre) && ValidChars(e.head.key) && AllWs(e.head.post) && AllWs(e.pre) && Valid(e.v) && AllWs(e.post)
  }

  predicate ValidEntries(es: seq<Entry>) {
    forall i :: 0 <= i < |es| ==> ValidEntry(es[i])
  }

  function MembersFrom(es: seq<Entry>): (ms: Members)
    requires es != []
  {
    var e := es[0];
    if |es| == 1 then LastMember(e.head, e.pre, e.v, e.post)
    else MoreMembers(e.head, e.pre, e.v, e.post, MembersFrom(es[1..]))
  }

  /** The object with these members in this order. */
  function ObjectOf(es: seq<Entry>): Tree {
    if es == [] then EmptyObj([]) else Obj(MembersFrom(es))
  }

  lemma {:induction false} FromValid(es: seq<Entry>)
    requires es != [] && ValidEntries(es)
    ensures ValidMembers(MembersFrom(es))
  {
    assert ValidEntry(es[0]);
    if |es| > 1 {
      FromValid(es[1..]);
    }
  }

  function EntriesOf(ms: Members): (es: seq<Entry>)
    ensures es != [] && MembersFrom(es) == ms
    decreases ms
  {
    match ms
    case LastMember(head, pre, v, post) => [Entry(head, pre, v, post)]
    case MoreMembers(head, pre, v, post, tail) => [Entry(head, pre, v, post)] + EntriesOf(tail)
  }

  function ActOf(env: Env, t: nat, e: Entry, depth: nat): Option<Act> {
    if ValidEntry(e) then MemberOf(env, t, Meaning(e.head.key), e.v, depth) else None
  }

  /** The acts of an object are those of its members, one by one. */
  lemma {:induction false} ActsByEntry(env: Env, t: nat, es: seq<Entry>, depth: nat)
    requires es != [] && ValidEntries(es) && ValidMembers(MembersFrom(es))
    ensures var acts := ActsOf(env, t, MembersFrom(es), depth);
            && (acts.Some? <==> forall i :: 0 <= i < |es| ==> ActOf(env, t, es[i], depth).Some?)
            && (acts.Some? ==> |acts.value| == |es| && forall i :: 0 <= i < |es| ==> ActOf(env, t, es[i], depth) == Some(acts.value[i]))
  {
    hide MemberOf, Meaning;
    assert ValidEntry(es[0]);
    if |es| > 1 {
      assert ValidMembers(MembersFrom(es[1..]));
      ActsByEntry(env, t, es[1..], depth);
    }
  }

  function Image<A, B>(f: A -> B, s: seq<A>): (r: seq<B>)
    ensures |r| == |s| && forall i :: 0 <= i < |s| ==> r[i] == f(s[i])
  {
    if s == [] then [] else [f(s[0])] + Image(f, s[1..])
  }

  lemma ImageAppend<A, B>(f: A -> B, s: seq<A>, t: seq<A>)
    ensures Image(f, s + t) == Image(f, s) + Image(f, t)
  {
  }

  /** Take the head of `s` out of its rearrangement `t`. */
  lemma TakeOut<A>(s: seq<A>, t: seq<A>) returns (u: seq<A>, v: seq<A>)
    requires s != [] && multiset(s) == multiset(t)
    ensures t == u + ([s[0]] + v) && multiset(s[1..]) == multiset(u + v)
  {
    assert s == [s[0]] + s[1..];
    assert s[0] in multiset(t);
    var j :| 0 <= j < |t| && t[j] == s[0];
    u, v := t[..j], t[j + 1..];
    assert t == u + ([t[j]] + v);
    assert multiset(t) == multiset(u) + multiset{t[j]} + multiset(v);
    assert multiset(s) == multiset{s[0]} + multiset(s[1..]);
    assert multiset(u + v) == multiset(u) + multiset(v) == multiset(t) - multiset{s[0]};
    assert multiset(s[1..]) == multiset(s) - multiset{s[0]};
  }

  /** Pointwise images of rearranged sequences are rearranged. */
  lemma {:induction false} ImagePermutes<A, B>(f: A -> B, s: seq<A>, t: seq<A>)
    requires multiset(s) == multiset(t)
    ensures multiset(Image(f, s)) == multiset(Image(f, t))
    decreases |s|
  {
    if s == [] {
      assert |t| == |multiset(t)| == 0;
    } else {
      var u, v := TakeOut(s, t);
      ImagePermutes(f, s[1..], u + v);
      ImageAppend(f, u, v);
      ImageAppend(f, u, [s[0]] + v);
      assert ([s[0]] + v)[1..] == v;
    }
  }

  function OrSkip(a: Option<Act>): Act {
    match a case None => Skip case Some(x) => x
  }

  lemma ActsPermute(env: Env, t: nat, es: seq<Entry>, others: seq<Entry>, depth: nat)
    requires multiset(es) == multiset(others) && es != [] && others != []
    requires ValidEntries(es) && ValidEntries(others)
    requires ValidMembers(MembersFrom(es)) && ValidMembers(MembersFrom(others))
    ensures var a, b := ActsOf(env, t, MembersFrom(es), depth), ActsOf(env, t, MembersFrom(others), depth);
            (a.Some? <==> b.Some?) && (a.Some? ==> multiset(a.value) == multiset(b.value))
  {
    hide ActsOf, MembersFrom, ActOf;
    ActsByEntry(env, t, es, depth);
    ActsByEntry(env, t, others, depth);
    SameMembers(es, others);
    assert forall i :: 0 <= i < |es| ==> es[i] in others;
    assert forall i :: 0 <= i < |others| ==> others[i] in es;
    var a, b := ActsOf(env, t, MembersFrom(es), depth), ActsOf(env, t, MembersFrom(others), depth);
    if a.Some? && b.Some? {
      var f := (e: Entry) => OrSkip(ActOf(env, t, e, depth));
      ImagePermutes(f, es, others);
      assert a.value == Image(f, es) && b.value == Image(f, others);
    }
  }

  /** Rearranging the members of an object changes neither whether it has a meaning nor which. */
  lemma MeaningPermutes(env: Env, t: nat, es: seq<Entry>, others: seq<Entry>, depth: nat)
    requires multiset(es) == multiset(others) && ValidEntries(es) && ValidEntries(others)
    requires Valid(ObjectOf(es)) && Valid(ObjectOf(others))
    ensures MessageOf(env, t, ObjectOf(es), depth) == MessageOf(env, t, ObjectOf(others), depth)
  {
    if es == [] || others == [] {
      assert |es| == |multiset(es)| == |multiset(others)| == |others|;
    } else {
      hide ActsOf, MembersFrom, Run;
      ActsPermute(env, t, es, others, depth + 1);
      var a, b := ActsOf(env, t, MembersFrom(es), depth + 1), ActsOf(env, t, MembersFrom(others), depth + 1);
      if a.Some? && b.Some? {
        RunPermutes(env.schema(t), a.value, b.value);
      }
    }
  }

  lemma ObjectValid(es: seq<Entry>)
    requires ValidEntries(es)
    ensures Valid(ObjectOf(es))
  {
    if es != [] {
      FromValid(es);
    }
  }

  /** The text of an object with these members, in this order. */
  function ObjectText(w: bytes, es: seq<Entry>, k: bytes): bytes {
    w + TreeTo(ObjectOf(es), k)
  }

  /**
   Order does not matter: the decoder treats an object and any rearrangement of its members alike,
   duplicates, oneofs, nulls and unknown keys included.
   */
  lemma OrderIrrelevant(env: Env, t: nat, w: bytes, es: seq<Entry>, others: seq<Entry>, k: bytes, depth: nat)
    requires AllWs(w) && ValidEntries(es) && multiset(es) == multiset(others)
    ensures SlowMessage(env, t, ObjectText(w, es, k), depth) == SlowMessage(env, t, ObjectText(w, others, k), depth)
  {
    SameMembers(es, others);
    forall i | 0 <= i < |others| ensures ValidEntry(others[i]) {
      assert others[i] in es;
    }
    ObjectValid(es);
    ObjectValid(others);
    hide SlowMessage, MessageOf, TreeTo, Valid, ObjectOf;
    MessageIs(env, t, w, ObjectOf(es), k, depth);
    MessageIs(env, t, w, ObjectOf(others), k, depth);
    MeaningPermutes(env, t, es, others, depth);
  }

  /** No two members assign the same field or populate the same oneof. */
  ghost predicate NoClash(env: Env, t: nat, es: seq<Entry>, depth: nat) {
    forall i, j :: 0 <= i < j < |es| ==>
      Compatible(env.schema(t), OrSkip(ActOf(env, t, es[i], depth)), OrSkip(ActOf(env, t, es[j], depth)))
  }

  /**
   Acceptance is exact: an object is accepted if and only if it is not nested too deep, every key is
   known or discarded, every value decodes, and no field or oneof occurs twice under any of its names.
   */
  lemma AcceptedExactly(env: Env, t: nat, w: bytes, es: seq<Entry>, k: bytes, depth: nat)
    requires AllWs(w) && ValidEntries(es)
    ensures SlowMessage(env, t, ObjectText(w, es, k), depth).Ok? <==>
              && depth + 1 <= MAX_DEPTH
              && (forall i :: 0 <= i < |es| ==> ActOf(env, t, es[i], depth + 1).Some?)
              && NoClash(env, t, es, depth + 1)
  {
    ObjectValid(es);
    hide SlowMessage, TreeTo, Valid, MessageOf, ObjectOf, ActOf, NoClash;
    MessageIs(env, t, w, ObjectOf(es), k, depth);
    MeaningExists(env, t, es, depth);
  }

  lemma ActsClash(env: Env, t: nat, es: seq<Entry>, acts: seq<Act>, depth: nat)
    requires |acts| == |es| && forall i :: 0 <= i < |es| ==> ActOf(env, t, es[i], depth) == Some(acts[i])
    ensures NoDuplicates(env.schema(t), acts) <==> NoClash(env, t, es, depth)
  {
    hide ActOf, Compatible;
    assert forall i :: 0 <= i < |es| ==> acts[i] == OrSkip(ActOf(env, t, es[i], depth));
  }

  lemma ActsRun(env: Env, t: nat, es: seq<Entry>, acts: seq<Act>, depth: nat)
    requires |acts| == |es| && forall i :: 0 <= i < |es| ==> ActOf(env, t, es[i], depth) == Some(acts[i])
    requires forall a :: a in acts ==> Typed(env.schema(t), a)
    ensures Run(env.schema(t), acts, {}, {}, Fresh(env.schema(t))).Some? <==> NoClash(env, t, es, depth)
  {
    hide ActOf, Run, NoDuplicates, NoClash, Describes, Typed, Fresh;
    RunExact(env.schema(t), acts);
    ActsClash(env, t, es, acts, depth);
  }

  /** The effect of the members, if it exists. */
  function EffectOf(env: Env, t: nat, acts: Option<seq<Act>>): Option<Message> {
    match acts
    case None => None
    case Some(a) => Run(env.schema(t), a, {}, {}, Fresh(env.schema(t)))
  }

  lemma MembersMean(env: Env, t: nat, es: seq<Entry>, depth: nat)
    requires es != [] && ValidEntries(es) && ValidMembers(MembersFrom(es))
    ensures EffectOf(env, t, ActsOf(env, t, MembersFrom(es), depth)).Some? <==>
              (forall i :: 0 <= i < |es| ==> ActOf(env, t, es[i], depth).Some?) && NoClash(env, t, es, depth)
  {
    hide MembersFrom, ActOf, ActsOf, Run, NoClash, ValidMembers, ValidEntries, Typed, Fresh;
    ActsByEntry(env, t, es, depth);
    var acts := ActsOf(env, t, MembersFrom(es), depth);
    if acts.Some? {
      ActsRun(env, t, es, acts.value, depth);
    }
  }

  lemma MeaningIsEffect(env: Env, t: nat, es: seq<Entry>, depth: nat)
    requires es != [] && Valid(ObjectOf(es)) && ValidMembers(MembersFrom(es))
    ensures MessageOf(env, t, ObjectOf(es), depth) ==
            if depth + 1 > MAX_DEPTH then None else EffectOf(env, t, ActsOf(env, t, MembersFrom(es), depth + 1))
  {
    hide MembersFrom, ActsOf, Run, Valid, ValidMembers;
  }

  lemma MeaningExists(env: Env, t: nat, es: seq<Entry>, depth: nat)
    requires ValidEntries(es) && Valid(ObjectOf(es))
    ensures MessageOf(env, t, ObjectOf(es), depth).Some? <==>
              && depth + 1 <= MAX_DEPTH
              && (forall i :: 0 <= i < |es| ==> ActOf(env, t, es[i], depth + 1).Some?)
              && NoClash(env, t, es, depth + 1)
  {
    hide MessageOf, ObjectOf, EffectOf, MembersFrom, ActOf, ActsOf, NoClash, Valid, ValidMembers, ValidEntries;
    if es == [] {
      EmptyMeans(env, t, depth);
    } else {
      FromValid(es);
      MeaningIsEffect(env, t, es, depth);
      MembersMean(env, t, es, depth + 1);
    }
  }

  lemma EmptyMeans(env: Env, t: nat, depth: nat)
    requires Valid(ObjectOf([]))
    ensures MessageOf(env, t, ObjectOf([]), depth).Some? <==> depth + 1 <= MAX_DEPTH
    ensures NoClash(env, t, [], depth + 1)
  {
    hide ActsOf, Run, MemberOf;
  }

  /** `s` is an object with the members `es`, followed by `k`. */
  ghost predicate Arranged(s: bytes, w: bytes, es: seq<Entry>, k: bytes) {
    AllWs(w) && ValidEntries(es) && s == ObjectText(w, es, k)
  }

  lemma {:induction false} EntriesValid(ms: Members)
    requires ValidMembers(ms)
    ensures ValidEntries(EntriesOf(ms))
    decreases ms
  {
    if ms.MoreMembers? {
      EntriesValid(ms.tail);
    }
  }

  /** `s` is an object without members, followed by `k`. */
  ghost predicate Memberless(s: bytes, k: bytes) {
    exists w, ws :: AllWs(w) && Valid(EmptyObj(ws)) && s == w + TreeTo(EmptyObj(ws), k)
  }

  /** Every object that is accepted and has members may have them in any other order. */
  lemma AcceptedInAnyOrder(env: Env, t: nat, s: bytes, depth: nat)
    requires SlowMessage(env, t, s, depth).Ok? && !Memberless(s, SlowMessage(env, t, s, depth).rest)
    ensures exists w, es ::
              && Arranged(s, w, es, SlowMessage(env, t, s, depth).rest)
              && forall others :: multiset(others) == multiset(es) ==>
                   SlowMessage(env, t, ObjectText(w, others, SlowMessage(env, t, s, depth).rest), depth) == SlowMessage(env, t, s, depth)
  {
    var rest := SlowMessage(env, t, s, depth).rest;
    MessageSkips(env, t, s, depth);
    var w, v := SkipSound(s, depth);
    MessageIs(env, t, w, v, rest, depth);
    hide SlowMessage;
    assert MessageOf(env, t, v, depth).Some?;
    if v.EmptyObj? {
      assert false;
    }
    var es := EntriesOf(v.members);
    EntriesValid(v.members);
    assert Arranged(s, w, es, rest);
    forall others | multiset(others) == multiset(es)
      ensures SlowMessage(env, t, ObjectText(w, others, rest), depth) == SlowMessage(env, t, s, depth)
    {
      OrderIrrelevant(env, t, w, es, others, rest, depth);
    }
  }
}
