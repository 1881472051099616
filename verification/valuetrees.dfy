/**
 What the parser of value trees accepts: exactly the JSON values within the nesting limit, each as
 the tree it denotes. The independent description is the JSON grammar.
 */
module ValueTrees {
  import opened Bytes
  import opened Cursor
  import opened Json
  import opened Text
  import opened Numbers
  import opened Values
  import opened Exact
  import opened Meanings

  // ---------------------------------------------------------------- what a JSON value denotes

  /** Numbers stand for their tokens; of the members with one key the last one counts. */
  function ValueOf(t: Tree): PValue
    requires Valid(t)
    decreases t
  {
    match t
    case Lit(text) => if text == NULL then NullV else BoolV(text == TRUE)
    case Number(n) => NumberV(NumTo(n, []))
    case Str(cs) => StringV(Meaning(cs))
    case EmptyArr(_) => ListV([])
    case Arr(elems) => ListV(ElemValues(elems))
    case EmptyObj(_) => StructV(map[])
    case Obj(members) => StructV(MemberValues(members, map[]))
  }

  function ElemValues(e: Elems): seq<PValue>
    requires ValidElems(e)
    decreases e
  {
    [ValueOf(e.v)] + if e.MoreElems? then ElemValues(e.tail) else []
  }

  function MemberValues(ms: Members, m: map<bytes, PValue>): map<bytes, PValue>
    requires ValidMembers(ms)
    decreases ms
  {
    var m' := m[Meaning(ms.head.key) := ValueOf(ms.v)];
    if ms.MoreMembers? then MemberValues(ms.tail, m') else m'
  }

  // ---------------------------------------------------------------- every value is read

  /** Values that are neither structs nor lists, by their first byte. */
  lemma FlatIs(w: bytes, t: Tree, k: bytes, depth: nat)
    requires AllWs(w) && Valid(t) && (NeedsEnd(t) ==> Ended(k)) && (t.Lit? || t.Number? || t.Str?)
    ensures ReadValue(w + TreeTo(t, k), depth) == Ok(ValueOf(t), k)
  {
    var u := TreeTo(t, k);
    TreeStarts(w, t, k);
    match t
    case Lit(text) =>
      assert u[0] == text[0];
      StartsWithAppend(text, k);
      StartsByHead(u);
    case Number(n) =>
      Meanings.TokenReads(n, k);
      hide NumberEnd, NumTo;
    case Str(cs) =>
      assert [] + u == u;
      StringComplete([], cs, k);
      hide ScanString, Unescape;
  }

  /** Structs and lists go to their loops. */
  lemma OpensAt(w: bytes, u: bytes, depth: nat)
    requires AllWs(w) && u != [] && (u[0] == LBRACE || u[0] == LBRACKET)
    ensures depth + 1 > MAX_DEPTH ==> ReadValue(w + u, depth) == Err
    ensures depth + 1 <= MAX_DEPTH && u[0] == LBRACE ==> ReadValue(w + u, depth) == ReadFields(u[1..], true, depth + 1, map[])
    ensures depth + 1 <= MAX_DEPTH && u[0] == LBRACKET ==> ReadValue(w + u, depth) == ReadElems(u[1..], true, depth + 1, [])
  {
    SkipWsOver(w, u);
    SkipWsStop(u);
    hide ReadFields, ReadElems;
  }

  lemma EmptyReads(ws: bytes, k: bytes, depth: nat)
    requires AllWs(ws)
    ensures ReadElems(ws + ([RBRACKET] + k), true, depth, []) == Ok(ListV([]), k)
    ensures ReadFields(ws + ([RBRACE] + k), true, depth, map[]) == Ok(StructV(map[]), k)
  {
    CloseIs(ws, k, true);
    hide NextElem, NextKey;
  }

  lemma Unfolds(t: Tree)
    requires Valid(t)
    ensures t.EmptyArr? ==> ValueOf(t) == ListV([])
    ensures t.EmptyObj? ==> ValueOf(t) == StructV(map[])
    ensures t.Arr? ==> ValueOf(t) == ListV([] + ElemValues(t.elems))
    ensures t.Obj? ==> ValueOf(t) == StructV(MemberValues(t.members, map[]))
  {
    hide ElemValues, MemberValues;
    if t.Arr? {
      assert [] + ElemValues(t.elems) == ElemValues(t.elems);
    }
  }

  /** Every JSON value is read as what it denotes if it nests within the limit, and refused otherwise. */
  lemma {:induction false} TreeReads(w: bytes, t: Tree, k: bytes, depth: nat)
    requires AllWs(w) && Valid(t) && (NeedsEnd(t) ==> Ended(k))
    ensures ReadValue(w + TreeTo(t, k), depth) == IfFits(FitsDepth(t, depth), ValueOf(t), k)
    decreases t, 0
  {
    hide *;
    HeightNests(t, depth);
    FitsCases(FitsDepth(t, depth), ValueOf(t), k);
    if t.Lit? || t.Number? || t.Str? {
      FlatIs(w, t, k, depth);
    } else {
      TreeShape(t, k);
      OpensAt(w, TreeTo(t, k), depth);
      Inside(t);
      Unfolds(t);
      if depth + 1 <= MAX_DEPTH {
        match t
        case EmptyArr(ws) => EmptyReads(ws, k, depth + 1);
        case EmptyObj(ws) => EmptyReads(ws, k, depth + 1);
        case Arr(elems) =>
          ElemsAre([], true, elems, k, depth + 1, []);
          FitsCases(depth + 1 + Json.ElemsHeight(elems) <= MAX_DEPTH, ListV([] + ElemValues(elems)), k);
        case Obj(ms) =>
          FieldsAre([], true, ms, k, depth + 1, map[]);
          FitsCases(depth + 1 + MembersHeight(ms) <= MAX_DEPTH, StructV(MemberValues(ms, map[])), k);
      }
    }
  }

  lemma FitsCases(fits: bool, v: PValue, k: bytes)
    ensures IfFits(fits, v, k) == if fits then Ok(v, k) else Err
  {
  }

  lemma ElemsSplit(e: Elems, vs: seq<PValue>, depth: nat)
    requires ValidElems(e)
    ensures e.MoreElems? ==> vs + ElemValues(e) == vs + [ValueOf(e.v)] + ElemValues(e.tail)
    ensures !e.MoreElems? ==> vs + ElemValues(e) == vs + [ValueOf(e.v)]
    ensures depth + Json.ElemsHeight(e) <= MAX_DEPTH <==>
            depth + Json.Height(e.v) <= MAX_DEPTH && (e.MoreElems? ==> depth + Json.ElemsHeight(e.tail) <= MAX_DEPTH)
  {
    hide ValueOf, Json.Height, Valid;
    assert e.MoreElems? ==> vs + ([ValueOf(e.v)] + ElemValues(e.tail)) == vs + [ValueOf(e.v)] + ElemValues(e.tail);
  }

  lemma FitsHeight(t: Tree, depth: nat)
    requires depth <= MAX_DEPTH
    ensures FitsDepth(t, depth) <==> depth + Json.Height(t) <= MAX_DEPTH
  {
    hide Json.Height;
  }

  lemma {:induction false} ElemsAre(w: bytes, first: bool, e: Elems, k: bytes, depth: nat, vs: seq<PValue>)
    requires AllWs(w) && ValidElems(e) && depth <= MAX_DEPTH
    ensures ReadElems(w + MoreElemsTo(first, e, [RBRACKET] + k), first, depth, vs) ==
            IfFits(depth + Json.ElemsHeight(e) <= MAX_DEPTH, ListV(vs + ElemValues(e)), k)
    decreases e, 1
  {
    hide *;
    var close := [RBRACKET] + k;
    var more := if e.MoreElems? then MoreElemsTo(false, e.tail, close) else close;
    var s := w + MoreElemsTo(first, e, close);
    MoreEnds(e, k);
    FirstElem(e, more);
    ElemIs(w, first, e, close);
    Values.ElemTurn(s, first, depth, vs, TreeTo(e.v, e.post + more));
    TreeReads([], e.v, e.post + more, depth);
    ElemsSplit(e, vs, depth);
    FitsHeight(e.v, depth);
    FitsCases(FitsDepth(e.v, depth), ValueOf(e.v), e.post + more);
    FitsCases(depth + Json.ElemsHeight(e) <= MAX_DEPTH, ListV(vs + ElemValues(e)), k);
    if FitsDepth(e.v, depth) {
      var vs' := vs + [ValueOf(e.v)];
      if e.MoreElems? {
        ElemsAre(e.post, false, e.tail, k, depth, vs');
        FitsCases(depth + Json.ElemsHeight(e.tail) <= MAX_DEPTH, ListV(vs' + ElemValues(e.tail)), k);
      } else {
        ElemsStop(e.post, k, depth, vs');
      }
    }
  }

  lemma ElemsStop(w: bytes, k: bytes, depth: nat, vs: seq<PValue>)
    requires AllWs(w)
    ensures ReadElems(w + ([RBRACKET] + k), false, depth, vs) == Ok(ListV(vs), k)
  {
    CloseIs(w, k, false);
    hide NextElem;
  }

  lemma FieldsStop(w: bytes, k: bytes, depth: nat, m: map<bytes, PValue>)
    requires AllWs(w)
    ensures ReadFields(w + ([RBRACE] + k), false, depth, m) == Ok(StructV(m), k)
  {
    CloseIs(w, k, false);
    hide NextKey;
  }

  lemma MembersSplit(ms: Members, m: map<bytes, PValue>, depth: nat)
    requires ValidMembers(ms) && ValidChars(ms.head.key) && Valid(ms.v)
    ensures var m' := m[Meaning(ms.head.key) := ValueOf(ms.v)];
            && (ms.MoreMembers? ==> ValidMembers(ms.tail) && MemberValues(ms, m) == MemberValues(ms.tail, m'))
            && (!ms.MoreMembers? ==> MemberValues(ms, m) == m')
    ensures depth + Json.MembersHeight(ms) <= MAX_DEPTH <==>
            depth + Json.Height(ms.v) <= MAX_DEPTH && (ms.MoreMembers? ==> depth + Json.MembersHeight(ms.tail) <= MAX_DEPTH)
  {
    hide ValueOf, Json.Height, Meaning;
  }

  lemma {:induction false} FieldsAre(w: bytes, first: bool, ms: Members, k: bytes, depth: nat, m: map<bytes, PValue>)
    requires AllWs(w) && ValidMembers(ms) && depth <= MAX_DEPTH
    ensures ReadFields(w + MoreTo(first, ms, [RBRACE] + k), first, depth, m) ==
            IfFits(depth + Json.MembersHeight(ms) <= MAX_DEPTH, StructV(MemberValues(ms, m)), k)
    decreases ms, 1
  {
    hide *;
    var close := [RBRACE] + k;
    var more := if ms.MoreMembers? then MoreTo(false, ms.tail, close) else close;
    var s := w + MoreTo(first, ms, close);
    FirstMember(ms, k);
    KeyIs(w, first, ms, close);
    FieldTurn(s, first, depth, m, Meaning(ms.head.key), ms.pre + TreeTo(ms.v, ms.post + more));
    TreeReads(ms.pre, ms.v, ms.post + more, depth);
    MembersSplit(ms, m, depth);
    FitsHeight(ms.v, depth);
    FitsCases(FitsDepth(ms.v, depth), ValueOf(ms.v), ms.post + more);
    FitsCases(depth + Json.MembersHeight(ms) <= MAX_DEPTH, StructV(MemberValues(ms, m)), k);
    if FitsDepth(ms.v, depth) {
      var m' := m[Meaning(ms.head.key) := ValueOf(ms.v)];
      if ms.MoreMembers? {
        FieldsAre(ms.post, false, ms.tail, k, depth, m');
        FitsCases(depth + Json.MembersHeight(ms.tail) <= MAX_DEPTH, StructV(MemberValues(ms.tail, m')), k);
      } else {
        FieldsStop(ms.post, k, depth, m');
      }
    }
  }

  // ---------------------------------------------------------------- whatever is read is a value

  /** The parser looks at a literal only, and not at what stands behind it. */
  predicate IsLiteral(v: PValue) {
    v.NullV? || v.BoolV?
  }

  lemma StringAhead(s: bytes)
    ensures ReadString(SkipWs(s)) == ReadString(s)
  {
    SkipWsStop(SkipWs(s));
    hide ScanString, Contents;
  }

  lemma FlatSkips(s: bytes, depth: nat)
    requires ReadValue(s, depth).Ok? && (IsLiteral(ReadValue(s, depth).value) ==> Ended(ReadValue(s, depth).rest))
    requires !At(SkipWs(s), LBRACE) && !At(SkipWs(s), LBRACKET)
    ensures SkipValue(s, depth) == Some(ReadValue(s, depth).rest)
  {
    hide SkipValue, NumberEnd, ReadString, StartsWith;
    SkipWsStop(SkipWs(s));
    var t := SkipWs(s);
    if t[0] == NULL[0] {
      WordSkips(s, NULL, depth);
    } else if t[0] == TRUE[0] || t[0] == FALSE[0] {
      WordSkips(s, if ReadBool(t).value then TRUE else FALSE, depth);
    } else if t[0] == QUOTE {
      StringAhead(s);
      StringSkips(s, depth);
    } else {
      TokenSkips(s, ReadValue(s, depth).rest, depth);
    }
  }

  lemma {:induction false} ReadSkips(s: bytes, depth: nat)
    requires ReadValue(s, depth).Ok? && (IsLiteral(ReadValue(s, depth).value) ==> Ended(ReadValue(s, depth).rest))
    ensures SkipValue(s, depth) == Some(ReadValue(s, depth).rest)
    decreases |s|, 0
  {
    hide *;
    var t := SkipWs(s);
    if At(t, LBRACE) || At(t, LBRACKET) {
      SkipWsSplit(s);
      var w := s[..|s| - |t|];
      AtHead(t);
      OpensAt(w, t, depth);
      HeadSkip(w, t, depth);
      if t[0] == LBRACE {
        FieldsSkip(t[1..], true, depth + 1, map[]);
      } else {
        ElemsSkip(t[1..], true, depth + 1, []);
      }
    } else {
      FlatSkips(s, depth);
    }
  }

  lemma AtHead(t: bytes)
    requires At(t, LBRACE) || At(t, LBRACKET)
    ensures t != [] && (t[0] == LBRACE || t[0] == LBRACKET) && !IsWs(t[0])
  {
  }

  lemma {:induction false} FieldsSkip(s: bytes, first: bool, depth: nat, m: map<bytes, PValue>)
    requires ReadFields(s, first, depth, m).Ok?
    ensures SkipMembers(s, first, depth) == Some(ReadFields(s, first, depth, m).rest)
    decreases |s|, 1
  {
    hide SkipValue, ReadValue;
    match NextKey(s, first)
    case NoKey =>
    case EndObject(_) =>
    case Key(key, u) =>
      var r := ReadValue(u, depth);
      KeyEnds(r.rest, false);
      ReadSkips(u, depth);
      FieldsSkip(r.rest, false, depth, m[key := r.value]);
  }

  lemma {:induction false} ElemsSkip(s: bytes, first: bool, depth: nat, vs: seq<PValue>)
    requires ReadElems(s, first, depth, vs).Ok?
    ensures SkipElems(s, first, depth) == Some(ReadElems(s, first, depth, vs).rest)
    decreases |s|, 1
  {
    hide SkipValue, ReadValue;
    match NextElem(s, first)
    case NoElem =>
    case EndArray(_) =>
    case Element(u) =>
      var r := ReadValue(u, depth);
      ElemEnds(r.rest, false);
      ReadSkips(u, depth);
      ElemsSkip(r.rest, false, depth, vs + [r.value]);
  }

  /** `s` is white space, then a JSON value within the nesting limit that denotes `v`, then `rest`. */
  ghost predicate DenotesValue(s: bytes, v: PValue, rest: bytes, depth: nat) {
    exists w, t :: Parses(s, w, t, rest, depth) && ValueOf(t) == v
  }

  /**
   The parser reads exactly the JSON values within the nesting limit, each as the tree it denotes,
   provided that an end follows a literal, which every caller goes on to ask for.
   */
  lemma ReadValueExact(s: bytes, v: PValue, rest: bytes, depth: nat)
    ensures ReadValue(s, depth) == Ok(v, rest) && (IsLiteral(v) ==> Ended(rest)) <==> DenotesValue(s, v, rest, depth)
  {
    hide ReadValue, SkipValue, FitsDepth, TreeTo, Valid;
    if ReadValue(s, depth) == Ok(v, rest) && (IsLiteral(v) ==> Ended(rest)) {
      ReadSkips(s, depth);
      var w, t := SkipSound(s, depth);
      TreeReads(w, t, rest, depth);
    }
    if DenotesValue(s, v, rest, depth) {
      var w, t :| Parses(s, w, t, rest, depth) && ValueOf(t) == v;
      TreeReads(w, t, rest, depth);
      if IsLiteral(v) {
        LiteralNeedsEnd(t);
      }
    }
  }

  lemma LiteralNeedsEnd(t: Tree)
    requires Valid(t) && IsLiteral(ValueOf(t))
    ensures NeedsEnd(t)
  {
  }

  /** The parser and the skipping of values accept the same, and stop at the same place. */
  lemma ReadsWhatSkips(s: bytes, depth: nat)
    ensures var r := ReadValue(s, depth);
            SkipValue(s, depth) == if r.Ok? && (IsLiteral(r.value) ==> Ended(r.rest)) then Some(r.rest) else None
  {
    hide ReadValue, SkipValue, FitsDepth, TreeTo, Valid;
    var r := ReadValue(s, depth);
    if r.Ok? && (IsLiteral(r.value) ==> Ended(r.rest)) {
      ReadSkips(s, depth);
    } else if SkipValue(s, depth).Some? {
      var w, t := SkipSound(s, depth);
      var rest := SkipValue(s, depth).value;
      assert DenotesValue(s, ValueOf(t), rest, depth);
      ReadValueExact(s, ValueOf(t), rest, depth);
    }
  }
}
