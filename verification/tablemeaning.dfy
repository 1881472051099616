/**
 What a JSON value means to the table decoder, whatever its target holds: the meaning is defined on
 parse trees, as for the generated decoder, and the byte decoder computes exactly that.
 */
module TableMeanings {
  import opened Bytes
  import opened Cursor
  import opened Json
  import opened Schema
  import opened Generated
  import opened Acts
  import opened Meanings
  import opened Table

  // ---------------------------------------------------------------- meaning of a tree

  /** What the fields hold when decoding begins: a type with more than 64 fields is cleared first. */
  function Start(mt: MessageType, target: Message): (m: Message)
    requires Shaped(mt, target)
    ensures Shaped(mt, m)
  {
    if |mt.fields| > 64 then Fresh(mt) else target
  }

  /** What a nested message holds when its decoding begins. */
  function InnerStart(mt: MessageType, prior: Option<Message>): (m: Message)
    ensures Shaped(mt, m)
  {
    Start(mt, TargetFor(mt, prior))
  }

  /** The acts of the table decoder's loop, applied from the left. */
  function RunInto(mt: MessageType, acts: seq<Act>, d: Decoded): (r: Option<Decoded>)
    requires Shaped(mt, d.m)
    ensures r.Some? ==> Shaped(mt, r.value.m)
    decreases |acts|
  {
    if acts == [] then Some(d)
    else
      match acts[0]
      case Skip => RunInto(mt, acts[1..], d)
      case Assign(i, p) =>
        if i >= |mt.fields| || i in d.seen then None
        else
          match StoreInto(mt, i, p, d.m, d.seenOneofs)
          case None => None
          case Some((m', o')) => RunInto(mt, acts[1..], Decoded(m', d.seen + {i}, o'))
  }

  function Cleared(mt: MessageType, d: Decoded): (m: Message)
    requires Shaped(mt, d.m)
    ensures Shaped(mt, m)
  {
    ClearMissing(mt, d.m, d.seen, d.seenOneofs)
  }

  function ItemWith(env: Env, kind: Kind, prior: Option<Message>, v: Tree, depth: nat): Option<Item>
    requires Valid(v)
    decreases v, 1
  {
    match kind
    case MessageKind(t) =>
      (match ObjectWith(env, t, InnerStart(env.schema(t), prior), v, depth)
       case None => None
       case Some(m) => Some(Known(Sub(m))))
    case _ => ScalarOf(env, kind, v)
  }

  function ListWith(env: Env, kind: Kind, e: Elems, depth: nat): Option<seq<Value>>
    requires ValidElems(e)
    decreases e, 2
  {
    if kind.MessageKind? && e.v == Lit(NULL) then None
    else Joined(ItemWith(env, kind, None, e.v, depth), if e.MoreElems? then ListWith(env, kind, e.tail, depth) else Some([]))
  }

  function PayloadWith(env: Env, f: Field, prior: Option<Message>, v: Tree, depth: nat): (r: Option<Payload>)
    requires Valid(v)
    ensures r.Some? && f.card.Member? ==> r.value.Null? || r.value.Single?
    decreases v, 2
  {
    if v == Lit(NULL) then Some(Null)
    else
      match f.card
      case StringMap =>
        if depth + 1 > MAX_DEPTH then None
        else if v.EmptyObj? then Some(Map(map[]))
        else if v.Obj? then
          (match PairsOf(v.members, map[]) case None => None case Some(m) => Some(Map(m)))
        else None
      case Repeated =>
        if depth + 1 > MAX_DEPTH then None
        else if v.EmptyArr? then Some(List([]))
        else if v.Arr? then
          (match ListWith(env, f.kind, v.elems, depth + 1) case None => None case Some(vs) => Some(List(vs)))
        else None
      case _ =>
        match ItemWith(env, f.kind, prior, v, depth)
        case None => None
        case Some(item) => Some(Single(item))
  }

  function MemberWith(env: Env, t: nat, base: Message, key: bytes, v: Tree, depth: nat): (r: Option<Act>)
    requires Valid(v) && Shaped(env.schema(t), base)
    ensures r.Some? ==> Typed(env.schema(t), r.value)
    decreases v, 3
  {
    match Find(env.schema(t), key)
    case None => if env.discard && FitsDepth(v, depth) then Some(Skip) else None
    case Some(i) =>
      var f := env.schema(t).fields[i];
      match PayloadWith(env, f, Existing(f, base.slots[i]), v, depth)
      case None => None
      case Some(p) => Some(Assign(i, p))
  }

  function ActsWith(env: Env, t: nat, base: Message, ms: Members, depth: nat): (r: Option<seq<Act>>)
    requires ValidMembers(ms) && Shaped(env.schema(t), base)
    ensures r.Some? ==> forall a :: a in r.value ==> Typed(env.schema(t), a)
    decreases ms, 4
  {
    match MemberWith(env, t, base, Meaning(ms.head.key), ms.v, depth)
    case None => None
    case Some(a) =>
      if ms.MoreMembers? then
        match ActsWith(env, t, base, ms.tail, depth)
        case None => None
        case Some(acts) => Some([a] + acts)
      else Some([a])
  }

  /** The message decoded from an object into fields that hold `base`. */
  function ObjectWith(env: Env, t: nat, base: Message, v: Tree, depth: nat): Option<Message>
    requires Valid(v) && Shaped(env.schema(t), base)
    decreases v, 0
  {
    if depth + 1 > MAX_DEPTH then None
    else if v.EmptyObj? then Some(Fresh(env.schema(t)))
    else if v.Obj? then
      match ActsWith(env, t, base, v.members, depth + 1)
      case None => None
      case Some(acts) =>
        match RunInto(env.schema(t), acts, Decoded(base, {}, {}))
        case None => None
        case Some(d) => Some(Cleared(env.schema(t), d))
    else None
  }

  // ---------------------------------------------------------------- the byte decoder computes it

  lemma {:induction false} ItemWithIs(env: Env, kind: Kind, prior: Option<Message>, w: bytes, v: Tree, k: bytes, depth: nat)
    requires SchemaOk(env.schema) && AllWs(w) && Valid(v) && Ended(k)
    ensures IntoItem(env, kind, prior, w + TreeTo(v, k), depth) == Lift(ItemWith(env, kind, prior, v, depth), k)
    decreases v, 3
  {
    hide SchemaOk, TreeTo, ScalarOf, ReadScalar, ObjectWith, IntoMessage, Start, TargetFor;
    if kind.MessageKind? {
      IntoIs(env, kind.message, TargetFor(env.schema(kind.message), prior), w, v, k, depth);
    } else {
      ScalarIs(env, kind, w, v, k);
    }
  }

  lemma ElementsHeadIs(env: Env, kind: Kind, w: bytes, first: bool, e: Elems, close: bytes, depth: nat)
    requires AllWs(w) && ValidElems(e) && Valid(e.v)
    ensures var u := TreeTo(e.v, e.post + (if e.MoreElems? then MoreElemsTo(false, e.tail, close) else close));
            IntoList(env, kind, w + MoreElemsTo(first, e, close), first, depth) ==
            if kind.MessageKind? && e.v == Lit(NULL) then Err
            else AfterElement(env, kind, IntoItem(env, kind, None, u, depth), depth)
  {
    var more := if e.MoreElems? then MoreElemsTo(false, e.tail, close) else close;
    var u := TreeTo(e.v, e.post + more);
    assert [] + u == u;
    hide TreeTo, ElemsTo, MoreElemsTo, Valid, ValidElems, IntoItem, NextElem, ReadNull, ReadBool, IntoList, AfterElement;
    ElemIs(w, first, e, close);
    ElementTurn(env, kind, w + MoreElemsTo(first, e, close), first, u, depth);
    LiteralIs([], e.v, e.post + more);
  }

  lemma ListWithUnfolds(env: Env, kind: Kind, e: Elems, depth: nat)
    requires ValidElems(e)
    ensures ListWith(env, kind, e, depth) ==
            if kind.MessageKind? && e.v == Lit(NULL) then None
            else Joined(ItemWith(env, kind, None, e.v, depth), if e.MoreElems? then ListWith(env, kind, e.tail, depth) else Some([]))
  {
  }

  lemma ElementsJoin(env: Env, kind: Kind, item: Option<Item>, tail: Option<seq<Value>>, s: bytes, k: bytes, depth: nat)
    requires IntoList(env, kind, s, false, depth) == Lift(tail, k)
    ensures AfterElement(env, kind, Lift(item, s), depth) == Lift(Joined(item, tail), k)
  {
    hide IntoList;
  }

  lemma {:induction false} ElementsAre(env: Env, kind: Kind, w: bytes, first: bool, e: Elems, k: bytes, depth: nat)
    requires SchemaOk(env.schema) && AllWs(w) && ValidElems(e)
    ensures IntoList(env, kind, w + MoreElemsTo(first, e, [RBRACKET] + k), first, depth) == Lift(ListWith(env, kind, e, depth), k)
    decreases e, 3
  {
    hide *;
    var close := [RBRACKET] + k;
    var more := if e.MoreElems? then MoreElemsTo(false, e.tail, close) else close;
    MoreEnds(e, k);
    FirstElem(e, more);
    ElementsHeadIs(env, kind, w, first, e, close, depth);
    ItemWithIs(env, kind, None, [], e.v, e.post + more, depth);
    ElementsRestAre(env, kind, e, k, depth);
    ElementsJoin(env, kind, ItemWith(env, kind, None, e.v, depth), if e.MoreElems? then ListWith(env, kind, e.tail, depth) else Some([]),
                 e.post + more, k, depth);
    ListWithUnfolds(env, kind, e, depth);
    LiftCases<seq<Value>>(None, k);
  }

  lemma {:induction false} ElementsRestAre(env: Env, kind: Kind, e: Elems, k: bytes, depth: nat)
    requires SchemaOk(env.schema) && ValidElems(e)
    ensures var more := if e.MoreElems? then MoreElemsTo(false, e.tail, [RBRACKET] + k) else [RBRACKET] + k;
            IntoList(env, kind, e.post + more, false, depth) ==
            Lift(if e.MoreElems? then ListWith(env, kind, e.tail, depth) else Some([]), k)
    decreases e, 2
  {
    if e.MoreElems? {
      ElementsAre(env, kind, e.post, false, e.tail, k, depth);
    } else {
      CloseIs(e.post, k, false);
    }
  }

  lemma {:induction false} PayloadWithIs(env: Env, f: Field, prior: Option<Message>, w: bytes, v: Tree, k: bytes, depth: nat)
    requires SchemaOk(env.schema) && AllWs(w) && Valid(v) && Ended(k)
    ensures IntoPayload(env, f, prior, w + TreeTo(v, k), depth) == Lift(PayloadWith(env, f, prior, v, depth), k)
    decreases v, 4
  {
    hide SchemaOk, TreeTo, Valid, AllWs, ReadNull, ReadBool, IntoItem, IntoList, ReadPairs, ItemWith, ListWith, PairsOf, Begin;
    LiteralIs(w, v, k);
    if v != Lit(NULL) {
      match f.card
      case StringMap => MapIs(w, v, k, depth);
      case Repeated => ArrayIs(env, f.kind, w, v, k, depth);
      case _ => ItemWithIs(env, f.kind, prior, w, v, k, depth);
    }
  }

  lemma {:induction false} ArrayIs(env: Env, kind: Kind, w: bytes, v: Tree, k: bytes, depth: nat)
    requires SchemaOk(env.schema) && AllWs(w) && Valid(v)
    ensures var s := w + TreeTo(v, k);
            var b := Begin(s, LBRACKET, depth);
            && (b.Some? <==> (depth + 1 <= MAX_DEPTH && (v.Arr? || v.EmptyArr?)))
            && (b.Some? ==> IntoList(env, kind, b.value, true, depth + 1) ==
                            Lift(if v.Arr? then ListWith(env, kind, v.elems, depth + 1) else Some([]), k))
    decreases v, 3
  {
    hide *;
    ArrayOpens(w, v, k, depth);
    EmptySpace(v);
    LiftCases<seq<Value>>(Some([]), k);
    if v.Arr? {
      ElementsAre(env, kind, [], true, v.elems, k, depth + 1);
    } else if v.EmptyArr? {
      EmptyElementsAre(env, kind, v.ws, k, depth + 1);
    }
  }

  lemma EmptyElementsAre(env: Env, kind: Kind, ws: bytes, k: bytes, depth: nat)
    requires AllWs(ws)
    ensures IntoList(env, kind, ws + ([RBRACKET] + k), true, depth) == Ok([], k)
  {
    CloseIs(ws, k, true);
    hide NextElem;
  }

  /** Fields not seen yet hold what they held at the beginning. */
  predicate Untouched(mt: MessageType, base: Message, d: Decoded)
    requires Shaped(mt, base) && Shaped(mt, d.m)
  {
    forall i :: 0 <= i < |mt.fields| && i !in d.seen ==> d.m.slots[i] == base.slots[i]
  }

  lemma StillHolds(mt: MessageType, base: Message, d: Decoded, i: nat)
    requires Shaped(mt, base) && Shaped(mt, d.m) && Untouched(mt, base, d) && i < |mt.fields| && i !in d.seen
    ensures d.m.slots[i] == base.slots[i]
  {
  }

  lemma StoreTouches(mt: MessageType, base: Message, d: Decoded, i: nat, p: Payload)
    requires Shaped(mt, base) && Shaped(mt, d.m) && Untouched(mt, base, d) && i < |mt.fields|
    requires StoreInto(mt, i, p, d.m, d.seenOneofs).Some?
    ensures var (m', o') := StoreInto(mt, i, p, d.m, d.seenOneofs).value;
            Untouched(mt, base, Decoded(m', d.seen + {i}, o'))
  {
  }

  /** What the loop makes of the remaining members. */
  function AppliedInto(mt: MessageType, acts: Option<seq<Act>>, d: Decoded): Option<Decoded>
    requires Shaped(mt, d.m)
  {
    match acts case None => None case Some(a) => RunInto(mt, a, d)
  }

  lemma LoopHeadInto(env: Env, t: nat, wide: bool, w: bytes, first: bool, ms: Members, close: bytes, nextIdx: nat, d: Decoded, depth: nat)
    returns (next: nat)
    requires SchemaOk(env.schema) && AllWs(w) && ValidMembers(ms) && Valid(ms.v) && Shaped(env.schema(t), d.m)
    ensures var mt := env.schema(t);
            var u := ms.pre + TreeTo(ms.v, ms.post + (if ms.MoreMembers? then MoreTo(false, ms.tail, close) else close));
            var i := Find(mt, Meaning(ms.head.key));
            IntoLoop(env, t, wide, w + MoreTo(first, ms, close), first, nextIdx, d, depth) ==
            if i.None? then (if env.discard then TableSkip(env, t, wide, SkipValue(u, depth), next, d, depth) else Err)
            else if i.value in d.seen then Err
            else TableStore(env, t, wide, i.value, next, d, depth,
                            IntoPayload(env, mt.fields[i.value], Existing(mt.fields[i.value], d.m.slots[i.value]), u, depth))
  {
    var u := ms.pre + TreeTo(ms.v, ms.post + (if ms.MoreMembers? then MoreTo(false, ms.tail, close) else close));
    hide SchemaOk, TreeTo, MembersTo, MoreTo, Valid, ValidMembers, NextKey, IntoPayload, SkipValue, PlainSkip, Find, Found, IntoLoop, TableStore, TableSkip;
    var key := Meaning(ms.head.key);
    KeyIs(w, first, ms, close);
    TableTurn(env, t, wide, w + MoreTo(first, ms, close), first, nextIdx, d, depth, key, u);
    FoundIsFind(env.schema, t, wide, key, nextIdx);
    SkipsAgree(u, depth);
    next := Found(env.schema(t), wide, key, nextIdx).1;
  }

  lemma {:induction false} LoopWithIs(env: Env, t: nat, wide: bool, base: Message, w: bytes, first: bool, ms: Members, k: bytes, nextIdx: nat, d: Decoded, depth: nat)
    requires SchemaOk(env.schema) && AllWs(w) && ValidMembers(ms)
    requires Shaped(env.schema(t), base) && Shaped(env.schema(t), d.m) && Untouched(env.schema(t), base, d)
    ensures IntoLoop(env, t, wide, w + MoreTo(first, ms, [RBRACE] + k), first, nextIdx, d, depth) ==
            Lift(AppliedInto(env.schema(t), ActsWith(env, t, base, ms, depth), d), k)
    decreases ms, 5
  {
    hide *;
    FirstMember(ms, k);
    var next := LoopHeadInto(env, t, wide, w, first, ms, [RBRACE] + k, nextIdx, d, depth);
    if Find(env.schema(t), Meaning(ms.head.key)).None? {
      SkipMemberWith(env, t, wide, base, ms, k, next, d, depth);
    } else {
      AssignMemberWith(env, t, wide, base, ms, k, next, d, depth);
    }
  }

  /** A member whose key is not known. */
  lemma {:induction false} SkipMemberWith(env: Env, t: nat, wide: bool, base: Message, ms: Members, k: bytes, next: nat, d: Decoded, depth: nat)
    requires SchemaOk(env.schema) && ValidMembers(ms) && ValidChars(ms.head.key) && Find(env.schema(t), Meaning(ms.head.key)).None?
    requires Shaped(env.schema(t), base) && Shaped(env.schema(t), d.m) && Untouched(env.schema(t), base, d)
    ensures var u := ms.pre + TreeTo(ms.v, ms.post + (if ms.MoreMembers? then MoreTo(false, ms.tail, [RBRACE] + k) else [RBRACE] + k));
            (if env.discard then TableSkip(env, t, wide, SkipValue(u, depth), next, d, depth) else Err) ==
            Lift(AppliedInto(env.schema(t), ActsWith(env, t, base, ms, depth), d), k)
    decreases ms, 4
  {
    FirstMember(ms, k);
    hide SchemaOk, TreeTo, MembersTo, MoreTo, Valid, ValidMembers, Meaning, SkipValue, Find, IntoLoop, PayloadWith, AllWs, Ended, FitsDepth, Untouched;
    SkipDecides(ms.pre, ms.v, ms.post + (if ms.MoreMembers? then MoreTo(false, ms.tail, [RBRACE] + k) else [RBRACE] + k), depth);
    if MemberWith(env, t, base, Meaning(ms.head.key), ms.v, depth).Some? {
      RestWithIs(env, t, wide, base, ms, k, next, d, depth, Skip);
    }
  }

  /** A member for field `i`. */
  lemma {:induction false} AssignMemberWith(env: Env, t: nat, wide: bool, base: Message, ms: Members, k: bytes, next: nat, d: Decoded, depth: nat)
    requires SchemaOk(env.schema) && ValidMembers(ms) && ValidChars(ms.head.key) && Find(env.schema(t), Meaning(ms.head.key)).Some?
    requires Shaped(env.schema(t), base) && Shaped(env.schema(t), d.m) && Untouched(env.schema(t), base, d)
    ensures var mt := env.schema(t);
            var u := ms.pre + TreeTo(ms.v, ms.post + (if ms.MoreMembers? then MoreTo(false, ms.tail, [RBRACE] + k) else [RBRACE] + k));
            var i := Find(mt, Meaning(ms.head.key)).value;
            (if i in d.seen then Err
             else TableStore(env, t, wide, i, next, d, depth, IntoPayload(env, mt.fields[i], Existing(mt.fields[i], d.m.slots[i]), u, depth))) ==
            Lift(AppliedInto(mt, ActsWith(env, t, base, ms, depth), d), k)
    decreases ms, 4
  {
    var mt := env.schema(t);
    FirstMember(ms, k);
    hide SchemaOk, TreeTo, MembersTo, MoreTo, Valid, ValidMembers, Meaning, IntoPayload, Find, StoreInto, IntoLoop, PayloadWith, AllWs, Ended,
         Existing, Untouched;
    var i := Find(mt, Meaning(ms.head.key)).value;
    if i !in d.seen {
      StillHolds(mt, base, d, i);
    }
    PayloadWithIs(env, mt.fields[i], Existing(mt.fields[i], base.slots[i]), ms.pre, ms.v,
                  ms.post + (if ms.MoreMembers? then MoreTo(false, ms.tail, [RBRACE] + k) else [RBRACE] + k), depth);
    var a := MemberWith(env, t, base, Meaning(ms.head.key), ms.v, depth);
    if a.Some? {
      FirstActWith(env, t, base, ms, depth, a.value);
      if i !in d.seen && StoreInto(mt, i, a.value.p, d.m, d.seenOneofs).Some? {
        var (m', o') := StoreInto(mt, i, a.value.p, d.m, d.seenOneofs).value;
        StoreTouches(mt, base, d, i, a.value.p);
        RestWithIs(env, t, wide, base, ms, k, next, Decoded(m', d.seen + {i}, o'), depth, a.value);
      }
    }
  }

  lemma FirstActWith(env: Env, t: nat, base: Message, ms: Members, depth: nat, a: Act)
    requires ValidMembers(ms) && Shaped(env.schema(t), base) && MemberWith(env, t, base, Meaning(ms.head.key), ms.v, depth) == Some(a)
    ensures var acts := ActsWith(env, t, base, ms, depth);
            acts.Some? ==> acts.value != [] && acts.value[0] == a
  {
  }

  /** The loop behind a member that has been handled. */
  lemma {:induction false} RestWithIs(env: Env, t: nat, wide: bool, base: Message, ms: Members, k: bytes, nextIdx: nat, d: Decoded, depth: nat, a: Act)
    requires SchemaOk(env.schema) && ValidMembers(ms)
    requires Shaped(env.schema(t), base) && Shaped(env.schema(t), d.m) && Untouched(env.schema(t), base, d)
    requires MemberWith(env, t, base, Meaning(ms.head.key), ms.v, depth) == Some(a)
    ensures var more := if ms.MoreMembers? then MoreTo(false, ms.tail, [RBRACE] + k) else [RBRACE] + k;
            var acts := ActsWith(env, t, base, ms, depth);
            && IntoLoop(env, t, wide, ms.post + more, false, nextIdx, d, depth) ==
               Lift(if acts.Some? then RunInto(env.schema(t), acts.value[1..], d) else None, k)
            && (acts.Some? ==> acts.value != [] && acts.value[0] == a)
    decreases ms, 3
  {
    if ms.MoreMembers? {
      assert ValidMembers(ms.tail) && AllWs(ms.post);
      LoopWithIs(env, t, wide, base, ms.post, false, ms.tail, k, nextIdx, d, depth);
      var tail := ActsWith(env, t, base, ms.tail, depth);
      if tail.Some? {
        assert ([a] + tail.value)[1..] == tail.value;
      }
    } else {
      assert AllWs(ms.post);
      CloseIs(ms.post, k, false);
    }
  }

  lemma EmptyObjectIs(env: Env, t: nat, wide: bool, ws: bytes, k: bytes, d: Decoded, depth: nat)
    requires AllWs(ws) && Shaped(env.schema(t), d.m)
    ensures IntoLoop(env, t, wide, ws + ([RBRACE] + k), true, 0, d, depth) == Ok(d, k)
    ensures AppliedInto(env.schema(t), Some([]), d) == Some(d)
  {
    CloseIs(ws, k, true);
    hide NextKey;
  }

  lemma StartsUntouched(mt: MessageType, base: Message)
    requires Shaped(mt, base)
    ensures Untouched(mt, base, Decoded(base, {}, {}))
  {
  }

  lemma MembersValid(v: Tree)
    requires Valid(v) && v.Obj?
    ensures ValidMembers(v.members)
  {
  }

  /** The loop over a whole object. */
  lemma {:induction false} ObjectLoopIs(env: Env, t: nat, wide: bool, base: Message, w: bytes, v: Tree, k: bytes, depth: nat)
    requires SchemaOk(env.schema) && AllWs(w) && Valid(v) && Shaped(env.schema(t), base)
    ensures var b := Begin(w + TreeTo(v, k), LBRACE, depth);
            && (b.Some? <==> (depth + 1 <= MAX_DEPTH && (v.Obj? || v.EmptyObj?)))
            && (b.Some? ==> IntoLoop(env, t, wide, b.value, true, 0, Decoded(base, {}, {}), depth + 1) ==
                            Lift(AppliedInto(env.schema(t), if v.Obj? then ActsWith(env, t, base, v.members, depth + 1) else Some([]),
                                             Decoded(base, {}, {})), k))
    decreases v, 0
  {
    hide *;
    ObjectOpens(w, v, k, depth);
    EmptySpace(v);
    var d := Decoded(base, {}, {});
    if v.Obj? {
      MembersValid(v);
      StartsUntouched(env.schema(t), base);
      LoopWithIs(env, t, wide, base, [], true, v.members, k, 0, d, depth + 1);
    } else if v.EmptyObj? {
      EmptyObjectIs(env, t, wide, v.ws, k, d, depth + 1);
      LiftCases(Some(d), k);
    }
  }

  /** Nothing is held beyond what has been stored. */
  predicate Clean(mt: MessageType, d: Decoded) {
    && Shaped(mt, d.m) && d.m.oneofs.Keys <= d.seenOneofs
    && (forall i :: 0 <= i < |mt.fields| && i !in d.seen ==> d.m.slots[i] == ZeroSlot(mt.fields[i]))
  }

  lemma {:induction false} RunStaysClean(mt: MessageType, acts: seq<Act>, d: Decoded)
    requires Clean(mt, d) && RunInto(mt, acts, d).Some?
    ensures Clean(mt, RunInto(mt, acts, d).value)
    decreases |acts|
  {
    if acts != [] {
      match acts[0]
      case Skip => RunStaysClean(mt, acts[1..], d);
      case Assign(i, p) =>
        var (m', o') := StoreInto(mt, i, p, d.m, d.seenOneofs).value;
        StoreStaysClean(mt, d, i, p);
        RunStaysClean(mt, acts[1..], Decoded(m', d.seen + {i}, o'));
    }
  }

  lemma StoreStaysClean(mt: MessageType, d: Decoded, i: nat, p: Payload)
    requires Clean(mt, d) && i < |mt.fields| && StoreInto(mt, i, p, d.m, d.seenOneofs).Some?
    ensures var (m', o') := StoreInto(mt, i, p, d.m, d.seenOneofs).value;
            Clean(mt, Decoded(m', d.seen + {i}, o'))
  {
  }

  /** Where nothing else is held there is nothing to clear. */
  lemma CleanIsCleared(mt: MessageType, d: Decoded)
    requires Clean(mt, d)
    ensures Cleared(mt, d) == d.m
  {
    assert Cleared(mt, d).slots == d.m.slots;
    assert Cleared(mt, d).oneofs == d.m.oneofs;
  }

  lemma ClearAll(mt: MessageType, m: Message)
    requires Shaped(mt, m)
    ensures ClearMissing(mt, m, {}, {}) == Fresh(mt)
  {
    assert ClearMissing(mt, m, {}, {}).slots == Fresh(mt).slots;
  }

  /** The path for at most 64 fields computes the meaning into the target. */
  lemma {:induction false} NarrowIs(env: Env, t: nat, target: Message, w: bytes, v: Tree, k: bytes, depth: nat)
    requires SchemaOk(env.schema) && AllWs(w) && Valid(v) && Shaped(env.schema(t), target)
    ensures NarrowMessage(env, t, target, w + TreeTo(v, k), depth) == Lift(ObjectWith(env, t, target, v, depth), k)
    decreases v, 1
  {
    hide SchemaOk, TreeTo, Valid, AllWs, IntoLoop, ActsWith, RunInto, ClearMissing;
    ClearAll(env.schema(t), target);
    RunNothing(env.schema(t), Decoded(target, {}, {}));
    ObjectLoopIs(env, t, false, target, w, v, k, depth);
  }

  lemma RunNothing(mt: MessageType, d: Decoded)
    requires Shaped(mt, d.m)
    ensures RunInto(mt, [], d) == Some(d)
  {
  }

  /** The path for more fields computes the meaning into an empty message. */
  lemma {:induction false} WideIs(env: Env, t: nat, target: Message, w: bytes, v: Tree, k: bytes, depth: nat)
    requires SchemaOk(env.schema) && AllWs(w) && Valid(v) && Shaped(env.schema(t), target)
    ensures WideMessage(env, t, target, w + TreeTo(v, k), depth) == Lift(ObjectWith(env, t, Fresh(env.schema(t)), v, depth), k)
    decreases v, 1
  {
    hide *;
    var mt := env.schema(t);
    var m := FreshShaped(mt);
    var d := Decoded(m, {}, {});
    WideBegins(env, t, target, w + TreeTo(v, k), depth);
    ObjectLoopIs(env, t, true, m, w, v, k, depth);
    ObjectUnfolds(env, t, m, v, depth);
    LiftCases(ObjectWith(env, t, m, v, depth), k);
    if depth + 1 <= MAX_DEPTH && (v.Obj? || v.EmptyObj?) {
      var acts := if v.Obj? then ActsWith(env, t, m, v.members, depth + 1) else Some([]);
      LiftCases(AppliedInto(mt, acts, d), k);
      AppliedClean(mt, acts);
    }
  }

  lemma FreshShaped(mt: MessageType) returns (m: Message)
    ensures m == Fresh(mt) && Shaped(mt, m)
  {
    m := Fresh(mt);
  }

  lemma WideBegins(env: Env, t: nat, target: Message, s: bytes, depth: nat)
    requires Shaped(env.schema(t), target) && Shaped(env.schema(t), Fresh(env.schema(t)))
    ensures WideMessage(env, t, target, s, depth) ==
            var b := Begin(s, LBRACE, depth);
            if b.None? then Err
            else
              var r := IntoLoop(env, t, true, b.value, true, 0, Decoded(Fresh(env.schema(t)), {}, {}), depth + 1);
              if r.Err? then Err else Ok(r.value.m, r.rest)
  {
    ClearAll(env.schema(t), target);
    hide Begin, IntoLoop, ClearMissing, Fresh;
  }

  lemma ObjectUnfolds(env: Env, t: nat, base: Message, v: Tree, depth: nat)
    requires Valid(v) && Shaped(env.schema(t), base)
    ensures v.Obj? ==> ValidMembers(v.members)
    ensures ObjectWith(env, t, base, v, depth) ==
            if depth + 1 > MAX_DEPTH || (!v.Obj? && !v.EmptyObj?) then None
            else
              var d := AppliedInto(env.schema(t), if v.Obj? then ActsWith(env, t, base, v.members, depth + 1) else Some([]), Decoded(base, {}, {}));
              if d.None? then None else Some(Cleared(env.schema(t), d.value))
  {
    ClearAll(env.schema(t), base);
    RunNothing(env.schema(t), Decoded(base, {}, {}));
    hide ActsWith, RunInto, ClearMissing, Fresh;
  }

  /** From an empty message nothing is left to clear. */
  lemma AppliedClean(mt: MessageType, acts: Option<seq<Act>>)
    requires Shaped(mt, Fresh(mt))
    ensures var d := AppliedInto(mt, acts, Decoded(Fresh(mt), {}, {})); d.Some? ==> Cleared(mt, d.value) == d.value.m
  {
    FreshIsClean(mt);
    hide Clean, Cleared, Fresh, RunInto;
    if acts.Some? && RunInto(mt, acts.value, Decoded(Fresh(mt), {}, {})).Some? {
      RunStaysClean(mt, acts.value, Decoded(Fresh(mt), {}, {}));
      CleanIsCleared(mt, RunInto(mt, acts.value, Decoded(Fresh(mt), {}, {})).value);
    }
  }

  lemma FreshIsClean(mt: MessageType)
    ensures Clean(mt, Decoded(Fresh(mt), {}, {}))
  {
  }

  /** The table decoder computes the meaning into what its target holds when decoding begins. */
  lemma {:induction false} IntoIs(env: Env, t: nat, target: Message, w: bytes, v: Tree, k: bytes, depth: nat)
    requires SchemaOk(env.schema) && AllWs(w) && Valid(v) && Shaped(env.schema(t), target)
    ensures IntoMessage(env, t, target, w + TreeTo(v, k), depth) ==
            Lift(ObjectWith(env, t, Start(env.schema(t), target), v, depth), k)
    decreases v, 2
  {
    hide SchemaOk, NarrowMessage, WideMessage, ObjectWith, TreeTo;
    NarrowIs(env, t, target, w, v, k, depth);
    WideIs(env, t, target, w, v, k, depth);
  }
}
