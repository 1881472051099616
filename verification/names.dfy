/**
 Which message types can show a discarded enum name, decided from the schema alone, and texts that do.
 */
module EnumNames {
  import opened Bytes
  import opened Text
  import opened Json
  import opened Schema
  import opened Generated
  import opened Acts
  import opened Meanings
  import opened Table
  import opened TableMeanings
  import opened Traces

  // ---------------------------------------------------------------- types that can show a name

  /** A message of this type leaves `room` levels of nesting and can hold, at some level, an enum field that tells unset from zero. */
  predicate Shows(schema: Schema, t: nat, room: nat)
    decreases room, 1
  {
    room >= 1 && exists i :: 0 <= i < |schema(t).fields| && FieldShows(schema, schema(t).fields[i], room)
  }

  predicate FieldShows(schema: Schema, f: Field, room: nat)
    requires room >= 1
    decreases room, 0
  {
    match f.kind
    case EnumKind(_) => f.card.Optional? || f.card.Member?
    case MessageKind(n) =>
      (match f.card
       case StringMap => false
       case Repeated => room >= 2 && Shows(schema, n, room - 2)
       case _ => Shows(schema, n, room - 1))
    case _ => false
  }

  lemma FreshStarts(mt: MessageType, f: Field)
    ensures Existing(f, ZeroSlot(f)) == None && InnerStart(mt, None) == Fresh(mt)
  {
  }

  lemma FreshHoldsZero(mt: MessageType, i: nat)
    requires i < |mt.fields| && IsSingularEnum(mt.fields[i])
    ensures HoldsZero(mt, i, Fresh(mt)) <==> mt.fields[i].card.Implicit?
  {
  }

  /** Into an empty message, only types that can show a discarded name do. */
  lemma {:induction false} QuietWithout(env: Env, t: nat, v: Tree, depth: nat)
    requires Valid(v) && depth <= MAX_DEPTH && !Shows(env.schema, t, MAX_DEPTH - depth)
    requires MessageOf(env, t, v, depth).Some?
    ensures QuietObject(env.schema, t, Fresh(env.schema(t)), v)
    decreases v, 0
  {
    hide Run, ActsOf, QuietMembers, Shows;
    if v.Obj? {
      MembersWithout(env, t, v.members, depth + 1);
    }
  }

  lemma {:induction false} MembersWithout(env: Env, t: nat, ms: Members, depth: nat)
    requires ValidMembers(ms) && 1 <= depth <= MAX_DEPTH && !Shows(env.schema, t, MAX_DEPTH - depth + 1)
    requires ActsOf(env, t, ms, depth).Some?
    ensures QuietMembers(env.schema, t, Fresh(env.schema(t)), ms)
    decreases ms, 3
  {
    assert Valid(ms.v);
    hide MemberOf, QuietMember, Meaning, Shows;
    MemberWithout(env, t, Meaning(ms.head.key), ms.v, depth);
    if ms.MoreMembers? {
      MembersWithout(env, t, ms.tail, depth);
    }
  }

  lemma {:induction false} MemberWithout(env: Env, t: nat, key: bytes, v: Tree, depth: nat)
    requires Valid(v) && 1 <= depth <= MAX_DEPTH && !Shows(env.schema, t, MAX_DEPTH - depth + 1)
    requires MemberOf(env, t, key, v, depth).Some?
    ensures QuietMember(env.schema, t, Fresh(env.schema(t)), key, v)
    decreases v, 2
  {
    var mt := env.schema(t);
    if Find(mt, key).Some? {
      var i := Find(mt, key).value;
      var f := mt.fields[i];
      assert !FieldShows(env.schema, f, MAX_DEPTH - depth + 1);
      FreshStarts(mt, f);
      hide PayloadOf, QuietPayload, Existing, HoldsZero, Find, Shows;
      if Lands(f, v) {
        FreshHoldsZero(mt, i);
      } else {
        PayloadWithout(env, f, v, depth);
      }
    }
  }

  lemma {:induction false} PayloadWithout(env: Env, f: Field, v: Tree, depth: nat)
    requires Valid(v) && 1 <= depth <= MAX_DEPTH && !FieldShows(env.schema, f, MAX_DEPTH - depth + 1)
    requires PayloadOf(env, f, v, depth).Some?
    ensures QuietPayload(env.schema, f, None, v)
    decreases v, 1
  {
    hide MessageOf, ListOf, PairsOf, QuietObject, QuietElems, ScalarOf, Shows, InnerStart, Fresh;
    if f.kind.MessageKind? {
      FreshStarts(env.schema(f.kind.message), f);
      if v == Lit(NULL) {
        ScalarsQuiet(env.schema, f.kind.message, Fresh(env.schema(f.kind.message)), v);
      } else if f.card.Repeated? {
        if v.Arr? {
          ElemsWithout(env, f.kind, v.elems, depth + 1);
        }
      } else if !f.card.StringMap? {
        QuietWithout(env, f.kind.message, v, depth);
      }
    }
  }

  lemma {:induction false} ElemsWithout(env: Env, kind: Kind, e: Elems, depth: nat)
    requires ValidElems(e) && kind.MessageKind? && depth <= MAX_DEPTH && !Shows(env.schema, kind.message, MAX_DEPTH - depth)
    requires ListOf(env, kind, e, depth).Some?
    ensures QuietElems(env.schema, kind.message, e)
    decreases e, 2
  {
    hide MessageOf, QuietObject, InnerStart, Shows, Fresh;
    FreshStarts(env.schema(kind.message), Field([], [], kind, Implicit));
    QuietWithout(env, kind.message, e.v, depth);
    if e.MoreElems? {
      ElemsWithout(env, kind, e.tail, depth);
    }
  }

  // ---------------------------------------------------------------- texts that show a name

  /** A string without escapes. */
  function Spelled(s: bytes): (cs: seq<Char>)
    ensures |cs| == |s| && forall i :: 0 <= i < |s| ==> cs[i] == Plain(s[i])
  {
    seq(|s|, i requires 0 <= i < |s| => Plain(s[i]))
  }

  lemma {:induction false} SpelledMeans(s: bytes)
    requires AllPlain(s)
    ensures ValidChars(Spelled(s)) && CharsText(Spelled(s)) == s && Meaning(Spelled(s)) == s
  {
    if s != [] {
      SpelledMeans(s[1..]);
      assert Spelled(s)[1..] == Spelled(s[1..]);
      assert s == [s[0]] + s[1..];
    }
  }

  /** The object with one member. */
  function OneMember(key: bytes, v: Tree): Tree {
    Obj(LastMember(MemberKey([], Spelled(key), []), [], v, []))
  }

  /** The text of an object that gives the field called `key` the string `name`. */
  function NameText(key: bytes, name: bytes): bytes {
    [LBRACE, QUOTE] + key + [QUOTE, COLON, QUOTE] + name + [QUOTE, RBRACE]
  }

  lemma NameTextIs(key: bytes, name: bytes)
    requires AllPlain(key) && AllPlain(name)
    ensures NameText(key, name) == TreeTo(OneMember(key, Tree.Str(Spelled(name))), [])
  {
    SpelledMeans(key);
    SpelledMeans(name);
    hide Spelled, CharsText, NameText;
    var value := [QUOTE] + (name + ([QUOTE] + [RBRACE]));
    assert TreeTo(Tree.Str(Spelled(name)), [RBRACE]) == value;
    OneMemberText(key, Tree.Str(Spelled(name)));
    NameTextSplits(key, name);
  }

  lemma NameTextSplits(key: bytes, name: bytes)
    ensures NameText(key, name) ==
            [LBRACE] + ([QUOTE] + (key + ([QUOTE] + ([COLON] + ([QUOTE] + (name + ([QUOTE] + [RBRACE])))))))
  {
    var value: bytes := [QUOTE] + (name + ([QUOTE] + [RBRACE]));
    var head: bytes := [LBRACE, QUOTE] + key;
    assert [QUOTE, COLON, QUOTE] + name + [QUOTE, RBRACE] == [QUOTE] + ([COLON] + value);
    assert NameText(key, name) == head + ([QUOTE, COLON, QUOTE] + name + [QUOTE, RBRACE]);
    assert head + ([QUOTE] + ([COLON] + value)) == [LBRACE] + ([QUOTE] + (key + ([QUOTE] + ([COLON] + value))));
  }

  lemma OneMemberText(key: bytes, v: Tree)
    requires AllPlain(key)
    ensures TreeTo(OneMember(key, v), []) == [LBRACE] + ([QUOTE] + (key + ([QUOTE] + ([COLON] + TreeTo(v, [RBRACE])))))
  {
    hide *;
    SpelledMeans(key);
    OneMemberIs(key, v);
    LoneObject(OneMember(key, v).members, []);
    assert [RBRACE] + [] == [RBRACE] && [] + [RBRACE] == [RBRACE] && [] + TreeTo(v, [RBRACE]) == TreeTo(v, [RBRACE]);
    KeySplits(OneMember(key, v).members.head, key, TreeTo(v, [RBRACE]));
  }

  lemma OneMemberIs(key: bytes, v: Tree)
    ensures OneMember(key, v) == Obj(LastMember(MemberKey([], Spelled(key), []), [], v, []))
  {
  }

  lemma LoneObject(ms: Members, k: bytes)
    requires ms.LastMember?
    ensures TreeTo(Obj(ms), k) == [LBRACE] + KeyTo(ms.head, ms.pre + TreeTo(ms.v, ms.post + ([RBRACE] + k)))
  {
    hide KeyTo;
  }

  lemma KeySplits(head: MemberKey, key: bytes, rest: bytes)
    requires head.pre == [] && head.post == [] && CharsText(head.key) == key
    ensures KeyTo(head, rest) == [QUOTE] + (key + ([QUOTE] + ([COLON] + rest)))
  {
    hide CharsText;
    assert [] + ([COLON] + rest) == [COLON] + rest;
    assert [] + StringTo(head.key, [COLON] + rest) == StringTo(head.key, [COLON] + rest);
  }

  /** A name that no value of an enum has. */
  function Undeclared(values: seq<EnumValue>): (name: bytes)
    ensures AllPlain(name)
    ensures forall i :: 0 <= i < |values| ==> |values[i].name| < |name|
  {
    if values == [] then [120]
    else
      var name := Undeclared(values[1..]);
      assert forall i :: 1 <= i < |values| ==> values[i] == values[1..][i - 1];
      name + seq(|values[0].name|, _ => 120)
  }

  lemma {:induction false} LongIsUndeclared(values: seq<EnumValue>, name: bytes)
    requires forall i :: 0 <= i < |values| ==> |values[i].name| < |name|
    ensures FindName(values, name) == None
  {
    if values != [] {
      LongIsUndeclared(values[1..], name);
    }
  }

  /** An object whose one member is given for field `i`. */
  lemma OneMemberMeans(env: Env, t: nat, i: nat, v: Tree, depth: nat)
    requires SchemaOk(env.schema) && i < |env.schema(t).fields| && Valid(v) && depth < MAX_DEPTH
    requires PayloadOf(env, env.schema(t).fields[i], v, depth + 1).Some?
    ensures var o := OneMember(env.schema(t).fields[i].json, v);
            && Valid(o) && MessageOf(env, t, o, depth).Some?
            && forall base :: Shaped(env.schema(t), base) ==>
                 (QuietObject(env.schema, t, base, o) <==> QuietMember(env.schema, t, base, env.schema(t).fields[i].json, v))
  {
    hide *;
    var mt := env.schema(t);
    var key := mt.fields[i].json;
    FieldIsOk(env.schema, t, i);
    OneMemberValid(key, v);
    FindUnique(mt, key, i);
    OneMemberRuns(env, t, i, v, depth);
    forall base | Shaped(mt, base)
      ensures QuietObject(env.schema, t, base, OneMember(key, v)) <==> QuietMember(env.schema, t, base, key, v)
    {
      OneMemberQuiet(env.schema, t, base, key, v);
    }
  }

  lemma OneMemberValid(key: bytes, v: Tree)
    requires AllPlain(key) && Valid(v)
    ensures var o := OneMember(key, v);
            && o.Obj? && o.members.LastMember? && o.members.v == v
            && Valid(o) && ValidMembers(o.members) && ValidChars(o.members.head.key) && Meaning(o.members.head.key) == key
  {
    SpelledMeans(key);
    NoSpace();
    hide Spelled, CharsText, Meaning, AllWs, ValidChars;
  }

  lemma OneMemberQuiet(schema: Schema, t: nat, base: Message, key: bytes, v: Tree)
    requires AllPlain(key) && Valid(v) && Shaped(schema(t), base)
    ensures Valid(OneMember(key, v))
    ensures QuietObject(schema, t, base, OneMember(key, v)) <==> QuietMember(schema, t, base, key, v)
  {
    OneMemberValid(key, v);
    hide OneMember, QuietMember, Meaning, Valid;
  }

  lemma OneMemberRuns(env: Env, t: nat, i: nat, v: Tree, depth: nat)
    requires i < |env.schema(t).fields| && Valid(v) && depth < MAX_DEPTH && AllPlain(env.schema(t).fields[i].json)
    requires PayloadOf(env, env.schema(t).fields[i], v, depth + 1).Some? && Find(env.schema(t), env.schema(t).fields[i].json) == Some(i)
    ensures Valid(OneMember(env.schema(t).fields[i].json, v))
    ensures MessageOf(env, t, OneMember(env.schema(t).fields[i].json, v), depth).Some?
  {
    var mt := env.schema(t);
    var ms := OneMember(mt.fields[i].json, v).members;
    OneMemberValid(mt.fields[i].json, v);
    hide PayloadOf, OneMember, Find, Meaning, Valid, ValidMembers, Run, Fresh;
    var p := PayloadOf(env, mt.fields[i], v, depth + 1).value;
    assert ActsOf(env, t, ms, depth + 1) == Some([Assign(i, p)]);
    OneActRuns(mt, i, p);
  }

  lemma OneActRuns(mt: MessageType, i: nat, p: Payload)
    requires i < |mt.fields| && Typed(mt, Assign(i, p))
    ensures Run(mt, [Assign(i, p)], {}, {}, Fresh(mt)).Some?
  {
  }

  /** A name that a singular enum field does not know is accepted where names are discarded. */
  lemma UnknownMeans(env: Env, f: Field, name: bytes, depth: nat)
    requires env.discard && IsSingularEnum(f) && AllPlain(name) && FindName(f.kind.values, name).None?
    ensures var v := Tree.Str(Spelled(name));
            && Valid(v) && Lands(f, v) && PayloadOf(env, f, v, depth) == Some(Payload.Single(Unknown))
  {
    SpelledMeans(name);
    hide Spelled, CharsText;
  }

  /** A text that shows a discarded name in an empty message, if the type has room for one. */
  lemma {:induction false} Witness(env: Env, t: nat, depth: nat) returns (v: Tree)
    requires SchemaOk(env.schema) && env.discard && depth <= MAX_DEPTH && Shows(env.schema, t, MAX_DEPTH - depth)
    ensures Valid(v) && MessageOf(env, t, v, depth).Some? && !QuietObject(env.schema, t, Fresh(env.schema(t)), v)
    decreases MAX_DEPTH - depth, 1
  {
    var mt := env.schema(t);
    var room: nat := MAX_DEPTH - depth;
    var i: nat :| i < |mt.fields| && FieldShows(env.schema, mt.fields[i], room);
    hide *;
    ShapedFresh(mt);
    var u := FieldWitness(env, t, i, depth);
    OneMemberMeans(env, t, i, u, depth);
    v := OneMember(mt.fields[i].json, u);
  }

  lemma ShapedFresh(mt: MessageType)
    ensures Shaped(mt, Fresh(mt))
  {
  }

  lemma {:induction false} FieldWitness(env: Env, t: nat, i: nat, depth: nat) returns (v: Tree)
    requires SchemaOk(env.schema) && env.discard && depth < MAX_DEPTH && i < |env.schema(t).fields|
    requires FieldShows(env.schema, env.schema(t).fields[i], MAX_DEPTH - depth)
    ensures Valid(v) && PayloadOf(env, env.schema(t).fields[i], v, depth + 1).Some?
    ensures !QuietMember(env.schema, t, Fresh(env.schema(t)), env.schema(t).fields[i].json, v)
    decreases MAX_DEPTH - depth, 0
  {
    hide *;
    var f := env.schema(t).fields[i];
    ShowsInside(env.schema, f, MAX_DEPTH - depth);
    if f.kind.EnumKind? {
      var name := Undeclared(f.kind.values);
      LongIsUndeclared(f.kind.values, name);
      UnknownMeans(env, f, name, depth + 1);
      v := Tree.Str(Spelled(name));
    } else {
      if f.card.Repeated? {
        var u := Witness(env, f.kind.message, depth + 2);
        ArrayMeans(env, f, u, depth + 1);
        v := Arr(LastElem([], u, []));
      } else {
        v := Witness(env, f.kind.message, depth + 1);
        NestedMeans(env, f, v, depth + 1);
      }
      NoNameLands(f, v);
    }
    QuietAt(env.schema, t, i, v);
  }

  lemma ShowsInside(schema: Schema, f: Field, room: nat)
    requires room >= 1 && FieldShows(schema, f, room)
    ensures f.kind.EnumKind? || f.kind.MessageKind?
    ensures f.kind.EnumKind? ==> IsSingularEnum(f) && !f.card.Implicit?
    ensures f.kind.MessageKind? ==>
              && !f.card.StringMap? && (f.card.Repeated? ==> room >= 2)
              && Shows(schema, f.kind.message, if f.card.Repeated? then room - 2 else room - 1)
  {
    hide Shows;
  }

  lemma NoNameLands(f: Field, v: Tree)
    requires Valid(v) && !f.kind.EnumKind?
    ensures !Lands(f, v)
  {
  }

  /** What is given for a field of an empty message is quiet unless a name lands in an optional field or a oneof. */
  lemma QuietAt(schema: Schema, t: nat, i: nat, v: Tree)
    requires SchemaOk(schema) && i < |schema(t).fields| && Valid(v)
    ensures var f := schema(t).fields[i];
            QuietMember(schema, t, Fresh(schema(t)), f.json, v) <==>
            if Lands(f, v) then f.card.Implicit? else QuietPayload(schema, f, None, v)
  {
    var mt := schema(t);
    var f := mt.fields[i];
    FieldIsOk(schema, t, i);
    FindUnique(mt, f.json, i);
    FreshStarts(mt, f);
    if IsSingularEnum(f) {
      FreshHoldsZero(mt, i);
    }
    hide SchemaOk, QuietPayload, Find, HoldsZero, Existing;
  }

  lemma NestedMeans(env: Env, f: Field, v: Tree, depth: nat)
    requires f.kind.MessageKind? && !f.card.Repeated? && !f.card.StringMap?
    requires Valid(v) && MessageOf(env, f.kind.message, v, depth).Some?
    ensures PayloadOf(env, f, v, depth).Some?
    ensures QuietPayload(env.schema, f, None, v) <==> QuietObject(env.schema, f.kind.message, Fresh(env.schema(f.kind.message)), v)
  {
    FreshStarts(env.schema(f.kind.message), f);
    hide QuietObject, InnerStart, Fresh;
  }

  lemma ArrayMeans(env: Env, f: Field, u: Tree, depth: nat)
    requires f.kind.MessageKind? && f.card.Repeated? && depth < MAX_DEPTH
    requires Valid(u) && MessageOf(env, f.kind.message, u, depth + 1).Some?
    ensures var v := Arr(LastElem([], u, []));
            && Valid(v) && PayloadOf(env, f, v, depth).Some?
            && (QuietPayload(env.schema, f, None, v) <==> QuietObject(env.schema, f.kind.message, Fresh(env.schema(f.kind.message)), u))
  {
    FreshStarts(env.schema(f.kind.message), f);
    assert u != Lit(NULL);
    hide QuietObject, InnerStart, Fresh, MessageOf;
    assert ListOf(env, f.kind, LastElem([], u, []), depth + 1).Some?;
  }
}
